/**
 The address book: what is known about each address, which addresses have a task, and who to dial.
 The order entries are walked in and the random draws are arbitrary.
 */
module Book {
  import opened Basics
  import opened Policy
  import Alloc = Allocation
  import R = Reservoir

  type Addr = nat

  datatype TransportHint = HintUnknown | V2 | V1Only
  datatype Phase = Dialing | Connected

  datatype Entry = Entry(
    services: nat,
    lastAnnounced: nat,
    lastAttempt: nat,
    lastSuccess: nat,
    nextAttempt: nat,
    failures: nat,
    shortSessions: nat,
    lastAttemptFailed: bool,
    origin: Origin,
    transport: TransportHint)
  {
    function Class(): Class { Classify(failures > 0, lastSuccess, lastAttemptFailed) }

    predicate Forgettable(now: nat) { ShouldForget(now, origin, lastSuccess, lastAnnounced, failures) }
  }

  /** An address to dial, with what is known of its transport. */
  datatype Dial = Dial(addr: Addr, transport: TransportHint)

  type Entries = map<Addr, Entry>
  type Active = map<Addr, Phase>

  const EVICTION_BATCH := 1024
  const EVICTION_BATCH_SHARE := 16

  function NewEntry(now: nat, services: nat, origin: Origin): Entry {
    Entry(services, now, 0, 0, 0, 0, 0, false, origin, HintUnknown)
  }

  /** Whether service flags advertise the v2 transport, bit 11. */
  predicate AdvertisesV2(services: nat) { services / 2048 % 2 == 1 }

  // ---- Eviction ----------------------------------------------------------------------------

  /** A sixteenth of the table, but one at least and 1024 at most. */
  function BatchSize(capacity: nat): (n: nat)
    ensures 1 <= n <= EVICTION_BATCH
    ensures capacity < 16 ==> n == 1
    ensures 16 <= capacity < 16384 ==> 16 * n <= capacity < 16 * (n + 1)
    ensures capacity >= 16384 ==> n == 1024
  {
    var n := Min(EVICTION_BATCH, capacity / EVICTION_BATCH_SHARE);
    if n < 1 then 1 else n
  }

  /** An entry eviction may consider: neither the operator's nor in use. */
  predicate Spare(entries: Entries, active: Active, a: Addr) {
    a in entries && !entries[a].origin.Manual? && a !in active
  }

  /** Past its forget rule. */
  function Stale(entries: Entries, active: Active, now: nat): set<Addr> {
    set a | a in entries && Spare(entries, active, a) && entries[a].Forgettable(now)
  }

  /** Never tried, and not past its forget rule. */
  function Untried(entries: Entries, active: Active, now: nat): set<Addr> {
    set a | a in entries && Spare(entries, active, a) && !entries[a].Forgettable(now) && entries[a].Class().Unknown?
  }

  /** What an eviction pass may have removed. */
  ghost predicate Evicted(entries: Entries, active: Active, now: nat, batch: nat, gone: set<Addr>) {
    var stale, untried := Stale(entries, active, now), Untried(entries, active, now);
    && gone <= stale + untried
    && |gone| == Min(batch, |stale| + |untried|)
    && (gone * untried != {} ==> stale <= gone)
  }

  /** What eviction never touches: the operator's, those in use, and those reached in the last thirty days. */
  predicate Protected(e: Entry, inUse: bool, now: nat) {
    e.origin.Manual? || inUse || (e.lastSuccess > 0 && Monus(now, e.lastSuccess) <= WAS_GOOD_FORGET_AFTER)
  }

  lemma ProtectedStays(entries: Entries, active: Active, now: nat, batch: nat, gone: set<Addr>, a: Addr)
    requires Evicted(entries, active, now, batch, gone) && a in entries && Protected(entries[a], a in active, now)
    ensures a !in gone
  {
    assert a !in Stale(entries, active, now) && a !in Untried(entries, active, now);
  }

  lemma {:induction false} SomeOf(s: set<Addr>, n: nat) returns (t: set<Addr>)
    requires n <= |s|
    ensures t <= s && |t| == n
  {
    if n == 0 {
      t := {};
    } else {
      var a :| a in s;
      t := SomeOf(s - {a}, n - 1);
      t := t + {a};
    }
  }

  /** A batch of stale entries with `a` among them, or all of them and what untried ones there is room for. */
  lemma SomeEviction(stale: set<Addr>, untried: set<Addr>, batch: nat, a: Addr) returns (gone: set<Addr>)
    requires stale !! untried && a in stale && batch >= 1
    ensures a in gone && gone <= stale + untried && |gone| == Min(batch, |stale| + |untried|)
    ensures gone * untried != {} ==> stale <= gone
  {
    if batch <= |stale| {
      gone := SomeOf(stale - {a}, batch - 1);
      gone := gone + {a};
    } else {
      gone := SomeOf(untried, Min(batch - |stale|, |untried|));
      gone := gone + stale;
    }
  }

  /** An entry reached before is one that eviction may take exactly if it is not protected: the operator's,
      in use, or reached in the last thirty days. */
  lemma ReachedMayGo(entries: Entries, active: Active, now: nat, batch: nat, a: Addr)
    requires a in entries && entries[a].lastSuccess > 0 && batch >= 1
    ensures (exists gone :: Evicted(entries, active, now, batch, gone) && a in gone)
            <==> !Protected(entries[a], a in active, now)
  {
    if Protected(entries[a], a in active, now) {
      forall gone | Evicted(entries, active, now, batch, gone) ensures a !in gone {
        ProtectedStays(entries, active, now, batch, gone, a);
      }
    } else {
      StaleIsNotUntried(entries, active, now);
      var gone := SomeEviction(Stale(entries, active, now), Untried(entries, active, now), batch, a);
      assert Evicted(entries, active, now, batch, gone);
    }
  }

  /** Those of gossip and not in use that are past their forget rule: not reached for thirty days; never reached,
      with five failures in a row; never reached, with three, and not announced for thirty days. */
  function Gone(entries: Entries, active: Active, now: nat): set<Addr> {
    set a | a in entries && a !in active && entries[a].origin.Gossip? &&
            (if entries[a].lastSuccess > 0 then now > entries[a].lastSuccess + 30 * 86400
             else entries[a].failures >= 5
                  || (entries[a].failures >= 3 && now > entries[a].lastAnnounced + 30 * 86400))
  }

  lemma TakenIf(entries: Entries, active: Active, now: nat, batch: nat, a: Addr) returns (gone: set<Addr>)
    requires batch >= 1
    requires a in Stale(entries, active, now)
             || (a in Untried(entries, active, now) && |Stale(entries, active, now)| < batch)
    ensures Evicted(entries, active, now, batch, gone) && a in gone
  {
    var stale, untried := Stale(entries, active, now), Untried(entries, active, now);
    StaleIsNotUntried(entries, active, now);
    if a in stale {
      gone := SomeEviction(stale, untried, batch, a);
    } else {
      gone := SomeUntried(stale, untried, batch, a);
    }
  }

  /** All the stale ones, and untried ones as there is room for, `a` among them. */
  lemma SomeUntried(stale: set<Addr>, untried: set<Addr>, batch: nat, a: Addr) returns (gone: set<Addr>)
    requires stale !! untried && a in untried && |stale| < batch
    ensures a in gone && stale <= gone <= stale + untried && |gone| == Min(batch, |stale| + |untried|)
  {
    var more := SomeOf(untried - {a}, Min(batch - |stale|, |untried|) - 1);
    gone := stale + (more + {a});
  }

  lemma TakenOnlyIf(entries: Entries, active: Active, now: nat, batch: nat, a: Addr, gone: set<Addr>)
    requires Evicted(entries, active, now, batch, gone) && a in gone
    ensures a in Stale(entries, active, now)
            || (a in Untried(entries, active, now) && |Stale(entries, active, now)| < batch)
  {
    if a !in Stale(entries, active, now) { UntriedGoLast(Stale(entries, active, now), gone, a); }
  }

  /** An address never reached is one that eviction may take exactly if it came from gossip, is not in use and
      either is past its forget rule, or has not failed either and fewer than a batch are past theirs. */
  lemma UnreachedMayGo(entries: Entries, active: Active, now: nat, batch: nat, a: Addr)
    requires a in entries && entries[a].lastSuccess == 0 && batch >= 1
    ensures (exists gone :: Evicted(entries, active, now, batch, gone) && a in gone)
            <==> entries[a].origin.Gossip? && a !in active
                 && (a in Gone(entries, active, now)
                     || (entries[a].failures == 0 && |Gone(entries, active, now)| < batch))
  {
    StaleAreGone(entries, active, now);
    assert a in Untried(entries, active, now) <==>
      entries[a].origin.Gossip? && a !in active && entries[a].failures == 0;
    forall gone | Evicted(entries, active, now, batch, gone) && a in gone
      ensures a in Stale(entries, active, now)
              || (a in Untried(entries, active, now) && |Stale(entries, active, now)| < batch)
    {
      TakenOnlyIf(entries, active, now, batch, a, gone);
    }
    if a in Stale(entries, active, now)
       || (a in Untried(entries, active, now) && |Stale(entries, active, now)| < batch)
    {
      var gone := TakenIf(entries, active, now, batch, a);
    }
  }

  lemma StaleAreGone(entries: Entries, active: Active, now: nat)
    ensures Stale(entries, active, now) == Gone(entries, active, now)
  {}

  lemma UntriedGoLast(stale: set<Addr>, gone: set<Addr>, a: Addr)
    requires a in gone && a !in stale && stale <= gone
    ensures |stale| < |gone|
  {
    SubsetSize(stale + {a}, gone);
  }

  /** Part-way through a walk over the table. */
  ghost predicate Walked(entries: Entries, active: Active, now: nat, batch: nat, rest: set<Addr>, stale: set<Addr>,
                         sample: seq<Addr>) {
    && rest <= entries.Keys
    && stale == Stale(entries, active, now) - rest && |stale| <= batch
    && R.Sample(batch, sample, Untried(entries, active, now) - rest)
  }

  lemma WalkStart(entries: Entries, active: Active, now: nat, batch: nat)
    ensures Walked(entries, active, now, batch, entries.Keys, {}, [])
  {
    assert Stale(entries, active, now) - entries.Keys == {};
    assert Untried(entries, active, now) - entries.Keys == {};
  }

  lemma WalkStep(entries: Entries, active: Active, now: nat, batch: nat, rest: set<Addr>, stale: set<Addr>,
                 sample: seq<Addr>, a: Addr, draw: nat)
    requires Walked(entries, active, now, batch, rest, stale, sample) && a in rest && |stale| < batch
    ensures a in Stale(entries, active, now) ==> Walked(entries, active, now, batch, rest - {a}, stale + {a}, sample)
    ensures a in Untried(entries, active, now) ==>
              Walked(entries, active, now, batch, rest - {a}, stale, R.Next(batch, sample, a, draw))
    ensures a !in Stale(entries, active, now) && a !in Untried(entries, active, now) ==>
              Walked(entries, active, now, batch, rest - {a}, stale, sample)
  {
    var st, un := Stale(entries, active, now), Untried(entries, active, now);
    assert st - (rest - {a}) == if a in st then (st - rest) + {a} else st - rest;
    assert un - (rest - {a}) == if a in un then (un - rest) + {a} else un - rest;
    if a in un { R.OfferKeepsSample(batch, sample, un - rest, a, draw); }
  }

  lemma StaleIsNotUntried(entries: Entries, active: Active, now: nat)
    ensures Stale(entries, active, now) !! Untried(entries, active, now)
  {}

  /** The sizes when the walk got to the end. */
  lemma ToppedUp(st: set<Addr>, un: set<Addr>, batch: nat, sample: seq<Addr>, extra: set<Addr>)
    requires st !! un && |st| <= batch && R.Sample(batch, sample, un)
    requires extra == ToSet(sample[..Min(batch - |st|, |sample|)])
    ensures extra <= un && |st + extra| == Min(batch, |st| + |un|)
  {
    SetOfDistinct(sample[..Min(batch - |st|, |sample|)]);
    assert st !! extra;
  }

  lemma EndOfTheTable(entries: Entries, active: Active, now: nat, batch: nat, stale: set<Addr>, sample: seq<Addr>,
                      extra: set<Addr>)
    requires Walked(entries, active, now, batch, {}, stale, sample)
    requires extra == ToSet(sample[..Min(batch - |stale|, |sample|)])
    ensures Evicted(entries, active, now, batch, stale + extra)
  {
    var st, un := Stale(entries, active, now), Untried(entries, active, now);
    assert st - {} == st && un - {} == un;
    StaleIsNotUntried(entries, active, now);
    ToppedUp(st, un, batch, sample, extra);
  }

  lemma EndOfTheBatch(entries: Entries, active: Active, now: nat, batch: nat, rest: set<Addr>, stale: set<Addr>,
                      sample: seq<Addr>)
    requires Walked(entries, active, now, batch, rest, stale, sample) && |stale| == batch
    ensures Evicted(entries, active, now, batch, stale)
  {
    StaleIsNotUntried(entries, active, now);
    SubsetSize(stale, Stale(entries, active, now));
  }

  /** The stale ones found, and as many of the sample as there is room for. */
  lemma WalkEnd(entries: Entries, active: Active, now: nat, batch: nat, rest: set<Addr>, stale: set<Addr>,
                sample: seq<Addr>, extra: set<Addr>)
    requires Walked(entries, active, now, batch, rest, stale, sample) && (rest == {} || |stale| == batch)
    requires extra == ToSet(sample[..Min(batch - |stale|, |sample|)])
    ensures Evicted(entries, active, now, batch, stale + extra)
  {
    if rest == {} {
      EndOfTheTable(entries, active, now, batch, stale, sample, extra);
    } else {
      EndOfTheBatch(entries, active, now, batch, rest, stale, sample);
      assert stale + extra == stale;
    }
  }

  // ---- Gossip ------------------------------------------------------------------------------

  datatype Gossiped = Gossiped(addr: Addr, services: nat)

  /** An address heard of again. */
  function Refreshed(e: Entry, now: nat, services: nat): Entry {
    var again := services != e.services && AdvertisesV2(services) && e.transport.V1Only?;
    var transport := if again then HintUnknown else e.transport;
    e.(lastAnnounced := now, services := services, transport := transport)
  }

  /** `entries'` still has everything `entries` has that is protected, with the history that protects it. */
  ghost predicate KeepsProtected(entries: Entries, active: Active, now: nat, entries': Entries) {
    forall a | a in entries && Protected(entries[a], a in active, now) ::
      a in entries' && entries'[a].origin == entries[a].origin && entries'[a].lastSuccess == entries[a].lastSuccess
  }

  /** What one gossiped address does to the table. `admits` says it is routable and not banned. */
  ghost predicate Heard(entries: Entries, active: Active, now: nat, capacity: nat, admits: Addr -> bool, g: Gossiped,
                        entries': Entries, added: bool) {
    if !admits(g.addr) then entries' == entries && !added
    else if g.addr in entries then entries' == entries[g.addr := Refreshed(entries[g.addr], now, g.services)] && !added
    else exists gone: set<Addr> ::
           && (if |entries| < capacity then gone == {} else Evicted(entries, active, now, BatchSize(capacity), gone))
           && added == (|entries| < capacity || gone != {})
           && entries' == if added then (entries - gone)[g.addr := NewEntry(now, g.services, Gossip)] else entries
  }

  lemma RemovalSize(entries: Entries, gone: set<Addr>)
    requires gone <= entries.Keys
    ensures |entries - gone| == |entries| - |gone|
  {
    assert (entries - gone).Keys == entries.Keys - gone;
    assert |(entries - gone).Keys| == |entries - gone|;
  }

  lemma EvictionKeepsProtected(entries: Entries, active: Active, now: nat, batch: nat, gone: set<Addr>)
    requires Evicted(entries, active, now, batch, gone)
    ensures KeepsProtected(entries, active, now, entries - gone) && gone <= entries.Keys
  {
    forall a | a in entries && Protected(entries[a], a in active, now) ensures a !in gone {
      ProtectedStays(entries, active, now, batch, gone, a);
    }
  }

  lemma KeepsProtectedChains(e0: Entries, e1: Entries, e2: Entries, active: Active, now: nat)
    requires KeepsProtected(e0, active, now, e1) && KeepsProtected(e1, active, now, e2)
    ensures KeepsProtected(e0, active, now, e2)
  {}

  lemma NewcomerKeepsProtected(entries: Entries, active: Active, now: nat, entries': Entries, a: Addr, e: Entry)
    requires KeepsProtected(entries, active, now, entries') && a !in entries
    ensures KeepsProtected(entries, active, now, entries'[a := e])
  {}

  lemma HeardOfANewcomer(entries: Entries, active: Active, now: nat, batch: nat, gone: set<Addr>, a: Addr, e: Entry)
    requires Evicted(entries, active, now, batch, gone) && gone != {} && a !in entries
    ensures |(entries - gone)[a := e]| <= |entries|
    ensures KeepsProtected(entries, active, now, (entries - gone)[a := e])
  {
    EvictionKeepsProtected(entries, active, now, batch, gone);
    RemovalSize(entries, gone);
    NewcomerKeepsProtected(entries, active, now, entries - gone, a, e);
  }

  /** A gossiped address never grows the table past its capacity, nor costs it a protected entry; only
      an admitted one gets in. */
  lemma HeardKeeps(entries: Entries, active: Active, now: nat, capacity: nat, admits: Addr -> bool, g: Gossiped,
                   entries': Entries, added: bool)
    requires Heard(entries, active, now, capacity, admits, g, entries', added)
    ensures |entries'| <= if |entries| < capacity then capacity else |entries|
    ensures KeepsProtected(entries, active, now, entries')
    ensures entries'.Keys <= entries.Keys + if added then {g.addr} else {}
    ensures added ==> admits(g.addr) && g.addr !in entries
  {
    if added && |entries| >= capacity {
      var gone :| Evicted(entries, active, now, BatchSize(capacity), gone) && gone != {}
                  && entries' == (entries - gone)[g.addr := NewEntry(now, g.services, Gossip)];
      HeardOfANewcomer(entries, active, now, BatchSize(capacity), gone, g.addr, NewEntry(now, g.services, Gossip));
    }
  }

  /** An address that is let in is filed as just announced, with the services it was announced with. One that was
      there keeps its history, and is worth another attempt over v2 if v1 was all it spoke and it has different
      services now, v2 (bit 11) among them. One that was not is due at once, never tried, from gossip. Every
      other entry stays as it is, or is evicted for a newcomer. */
  lemma HeardIsFiled(entries: Entries, active: Active, now: nat, capacity: nat, admits: Addr -> bool, g: Gossiped,
                     entries': Entries, added: bool)
    requires Heard(entries, active, now, capacity, admits, g, entries', added) && admits(g.addr)
    ensures g.addr in entries ==>
              var e := entries[g.addr];
              && g.addr in entries' && !added
              && entries'[g.addr] == Entry(
                   g.services, now, e.lastAttempt, e.lastSuccess, e.nextAttempt, e.failures, e.shortSessions,
                   e.lastAttemptFailed, e.origin,
                   if e.transport.V1Only? && g.services != e.services && g.services / 2048 % 2 == 1 then HintUnknown
                   else e.transport)
    ensures g.addr !in entries ==>
              && added == (g.addr in entries')
              && (added ==> entries'[g.addr] == Entry(g.services, now, 0, 0, 0, 0, 0, false, Gossip, HintUnknown))
    ensures forall a | a in entries' && a != g.addr :: a in entries && entries'[a] == entries[a]
    ensures !added || |entries| < capacity ==> forall a | a in entries && a != g.addr :: a in entries'
  {}

  /** The same of a whole message: the tables it goes through, one address after the other, and which of the
      addresses got in. */
  ghost predicate HeardAll(active: Active, now: nat, capacity: nat, admits: Addr -> bool, gs: seq<Gossiped>,
                           tables: seq<Entries>, news: seq<bool>) {
    && |tables| == |gs| + 1 && |news| == |gs|
    && forall i | 0 <= i < |gs| :: Heard(tables[i], active, now, capacity, admits, gs[i], tables[i + 1], news[i])
  }

  function Trues(bs: seq<bool>): nat {
    if bs == [] then 0 else Trues(bs[..|bs| - 1]) + if bs[|bs| - 1] then 1 else 0
  }

  lemma TruesOneMore(bs: seq<bool>, b: bool)
    ensures Trues(bs + [b]) == Trues(bs) + if b then 1 else 0
  {
    assert (bs + [b])[..|bs|] == bs;
  }

  lemma HeardOneMore(active: Active, now: nat, capacity: nat, admits: Addr -> bool, gs: seq<Gossiped>, i: nat,
                     tables: seq<Entries>, news: seq<bool>, entries': Entries, one: bool)
    requires i < |gs| && HeardAll(active, now, capacity, admits, gs[..i], tables, news)
    requires Heard(tables[i], active, now, capacity, admits, gs[i], entries', one)
    ensures HeardAll(active, now, capacity, admits, gs[..i + 1], tables + [entries'], news + [one])
  {
    var gs', tables', news' := gs[..i + 1], tables + [entries'], news + [one];
    forall j | 0 <= j < |gs'|
      ensures Heard(tables'[j], active, now, capacity, admits, gs'[j], tables'[j + 1], news'[j])
    {
      assert tables'[j] == tables[j] && gs'[j] == gs[j];
      assert j < i ==> gs[..i][j] == gs[j] && tables'[j + 1] == tables[j + 1] && news'[j] == news[j];
    }
  }

  /** What a message keeps: the table within its capacity or the size it had, everything protected, and no
      newcomer that was not gossiped and admitted. */
  ghost predicate Bounded(entries: Entries, active: Active, now: nat, capacity: nat, admits: Addr -> bool,
                          gs: seq<Gossiped>, entries': Entries) {
    && (|entries'| <= if |entries| < capacity then capacity else |entries|)
    && KeepsProtected(entries, active, now, entries')
    && forall a | a in entries' && a !in entries :: admits(a) && exists g | g in gs :: g.addr == a
  }

  /** What one address of it keeps. */
  ghost predicate KeepsOne(t: Entries, t': Entries, active: Active, now: nat, capacity: nat, admits: Addr -> bool,
                           g: Gossiped) {
    && (|t'| <= if |t| < capacity then capacity else |t|) && KeepsProtected(t, active, now, t')
    && forall a | a in t' && a !in t :: a == g.addr && admits(a)
  }

  lemma BoundedOneMore(entries: Entries, active: Active, now: nat, capacity: nat, admits: Addr -> bool,
                       gs: seq<Gossiped>, mid: Entries, g: Gossiped, entries': Entries)
    requires Bounded(entries, active, now, capacity, admits, gs, mid) && g in gs
    requires KeepsOne(mid, entries', active, now, capacity, admits, g)
    ensures Bounded(entries, active, now, capacity, admits, gs, entries')
  {
    KeepsProtectedChains(entries, mid, entries', active, now);
  }

  lemma {:induction false} BoundedFrom(active: Active, now: nat, capacity: nat, admits: Addr -> bool,
                                       gs: seq<Gossiped>, tables: seq<Entries>, n: nat)
    requires |tables| == |gs| + 1 && n <= |gs|
    requires forall i | 0 <= i < n :: KeepsOne(tables[i], tables[i + 1], active, now, capacity, admits, gs[i])
    ensures Bounded(tables[0], active, now, capacity, admits, gs, tables[n])
  {
    if n > 0 {
      BoundedFrom(active, now, capacity, admits, gs, tables, n - 1);
      BoundedOneMore(tables[0], active, now, capacity, admits, gs, tables[n - 1], gs[n - 1], tables[n]);
    }
  }

  lemma HeardAllKeeps(active: Active, now: nat, capacity: nat, admits: Addr -> bool, gs: seq<Gossiped>,
                      tables: seq<Entries>, news: seq<bool>, n: nat)
    requires HeardAll(active, now, capacity, admits, gs, tables, news) && n <= |gs|
    ensures Bounded(tables[0], active, now, capacity, admits, gs, tables[n])
  {
    forall i | 0 <= i < n ensures KeepsOne(tables[i], tables[i + 1], active, now, capacity, admits, gs[i]) {
      HeardKeeps(tables[i], active, now, capacity, admits, gs[i], tables[i + 1], news[i]);
    }
    BoundedFrom(active, now, capacity, admits, gs, tables, n);
  }

  function Admitted(gs: seq<Gossiped>, admits: Addr -> bool): set<Addr> {
    set g | g in gs && admits(g.addr) :: g.addr
  }

  lemma OneGetsIn(entries: Entries, active: Active, now: nat, capacity: nat, admits: Addr -> bool, g: Gossiped,
                  entries': Entries, one: bool)
    requires Heard(entries, active, now, capacity, admits, g, entries', one) && |entries| < capacity
    ensures entries'.Keys == entries.Keys + if admits(g.addr) then {g.addr} else {}
    ensures |entries'| == |entries| + if one then 1 else 0
  {
    if admits(g.addr) && g.addr !in entries { assert entries - {} == entries; }
  }

  lemma AdmittedOneMore(gs: seq<Gossiped>, admits: Addr -> bool, n: nat)
    requires n < |gs|
    ensures Admitted(gs[..n + 1], admits) == Admitted(gs[..n], admits) + if admits(gs[n].addr) then {gs[n].addr} else {}
  {
    PrefixGrows(gs, n);
  }

  /** What the next address does to a table with room. */
  ghost predicate GetsIn(t: Entries, t': Entries, capacity: nat, a: Addr, admitted: bool, one: bool) {
    |t| < capacity ==> t'.Keys == t.Keys + (if admitted then {a} else {}) && |t'| == |t| + if one then 1 else 0
  }

  /** What has got in so far. */
  ghost predicate SoFar(t0: Entries, t: Entries, admitted: set<Addr>, added: nat) {
    t.Keys == t0.Keys + admitted && |t| == |t0| + added
  }

  lemma SoFarOneMore(t0: Entries, mid: Entries, t: Entries, capacity: nat, so: set<Addr>, before: nat,
                     a: Addr, admitted: bool, one: bool)
    requires SoFar(t0, mid, so, before) && |mid| < capacity && GetsIn(mid, t, capacity, a, admitted, one)
    ensures SoFar(t0, t, so + (if admitted then {a} else {}), before + if one then 1 else 0)
  {}

  lemma {:induction false} AllGetInFrom(capacity: nat, admits: Addr -> bool, gs: seq<Gossiped>, tables: seq<Entries>,
                                        news: seq<bool>, n: nat)
    requires |tables| == |gs| + 1 && |news| == |gs| && n <= |gs| && |tables[0]| + n <= capacity
    requires forall i | 0 <= i < n ::
               GetsIn(tables[i], tables[i + 1], capacity, gs[i].addr, admits(gs[i].addr), news[i])
    ensures SoFar(tables[0], tables[n], Admitted(gs[..n], admits), Trues(news[..n])) && Trues(news[..n]) <= n
  {
    if n > 0 {
      AllGetInFrom(capacity, admits, gs, tables, news, n - 1);
      AdmittedOneMore(gs, admits, n - 1);
      PrefixGrows(news, n - 1);
      TruesOneMore(news[..n - 1], news[n - 1]);
      SoFarOneMore(tables[0], tables[n - 1], tables[n], capacity, Admitted(gs[..n - 1], admits), Trues(news[..n - 1]),
                   gs[n - 1].addr, admits(gs[n - 1].addr), news[n - 1]);
    }
  }

  /** While there is room every admitted address gets in, and exactly the new ones are counted. */
  lemma AllGetIn(active: Active, now: nat, capacity: nat, admits: Addr -> bool, gs: seq<Gossiped>, tables: seq<Entries>,
                 news: seq<bool>)
    requires HeardAll(active, now, capacity, admits, gs, tables, news) && |tables[0]| + |gs| <= capacity
    ensures tables[|gs|].Keys == tables[0].Keys + Admitted(gs, admits) && |tables[|gs|]| == |tables[0]| + Trues(news)
  {
    forall i | 0 <= i < |gs|
      ensures GetsIn(tables[i], tables[i + 1], capacity, gs[i].addr, admits(gs[i].addr), news[i])
    {
      if |tables[i]| < capacity { OneGetsIn(tables[i], active, now, capacity, admits, gs[i], tables[i + 1], news[i]); }
    }
    AllGetInFrom(capacity, admits, gs, tables, news, |gs|);
    WholePrefix(gs);
    WholePrefix(news);
  }

  /** A table of one entry, reached once. */
  const REACHED_ONCE: Entries := map[1 := Entry(0, 0, 1, 1, 0, 0, 0, false, Gossip, HintUnknown)]

  /** Thirty days and a second on, a full table gives it up for a newcomer, whichever way eviction goes. */
  lemma AReachedEntryGoes(entries': Entries, added: bool)
    requires Heard(REACHED_ONCE, map[], WAS_GOOD_FORGET_AFTER + 2, 1, _ => true, Gossiped(2, 0), entries', added)
    ensures added && entries'.Keys == {2}
  {
    var now := WAS_GOOD_FORGET_AFTER + 2;
    assert Stale(REACHED_ONCE, map[], now) == {1} && Untried(REACHED_ONCE, map[], now) == {};
    var gone :| Evicted(REACHED_ONCE, map[], now, BatchSize(1), gone) && added == (gone != {})
                && entries' == if added then (REACHED_ONCE - gone)[2 := NewEntry(now, 0, Gossip)] else REACHED_ONCE;
    assert |gone| == 1;
    SingletonOf(gone, 1);
  }

  lemma SingletonOf(s: set<Addr>, a: Addr)
    requires s <= {a} && |s| == 1
    ensures s == {a}
  {
    var x :| x in s;
  }

  // ---- Outcomes ----------------------------------------------------------------------------

  /** The peer has started to advertise v2. */
  predicate StartsV2(e: Entry, services: nat) { AdvertisesV2(services) && !AdvertisesV2(e.services) }

  /** An entry after a handshake. */
  function Reached(e: Entry, now: nat, services: nat, version: nat): Entry {
    var transport :=
      if version == 2 then V2
      else if e.transport.HintUnknown? then V1Only
      else if e.transport.V1Only? && StartsV2(e, services) then HintUnknown
      else e.transport;
    e.(lastSuccess := now, lastAttemptFailed := false, failures := 0, services := services, transport := transport)
  }

  /** An entry's counters after an attempt or session. */
  function Judged(e: Entry, outcome: Outcome): Entry {
    match outcome
    case OurFaultOutcome(_) => e
    case OtherChain => e.(lastAttemptFailed := false, failures := 0)
    case Violated => e.(lastAttemptFailed := false, failures := 0)
    case Disconnected(_, _) =>
      e.(lastAttemptFailed := false, failures := 0,
         shortSessions := if outcome.IsShortSession() then Min(e.shortSessions + 1, U8_MAX) else 0)
    case Failed => e.(lastAttemptFailed := true, failures := Min(e.failures + 1, U8_MAX))
  }

  /** An entry with its retry decided, `r` being the random spread. */
  function Settled(e: Entry, now: nat, outcome: Outcome, r: real): Entry
    requires 0.0 <= r < 1.0
  {
    var j := Judged(e, outcome);
    var delay := RetryDelay(outcome, j.origin, j.lastSuccess > 0, j.failures, j.shortSessions);
    j.(nextAttempt := Min(now + Jitter(delay, r), U32_MAX))
  }

  /** An entry after v2 did not work for it and v1 did: only filed if nothing is known yet. */
  function NotedV1(e: Entry): Entry {
    if e.transport.HintUnknown? then e.(transport := V1Only) else e
  }

  /** What a handshake makes of an entry: it is good, with no failures, and speaks v2 if it did, now or before;
      v1 only is a verdict where there was none, or stands until the peer starts to advertise v2. */
  lemma HandshakeMeans(e: Entry, now: nat, services: nat, version: nat)
    ensures var f := Reached(e, now, services, version);
            && f.failures == 0 && (now > 0 ==> f.Class().Good?) && f.services == services && f.lastSuccess == now
            && (f.transport.V2? <==> version == 2 || e.transport.V2?)
            && (f.transport.V1Only? <==>
                && version != 2
                && (e.transport.HintUnknown?
                    || (e.transport.V1Only? && !(services / 2048 % 2 == 1 && e.services / 2048 % 2 == 0))))
            && f.origin == e.origin && f.nextAttempt == e.nextAttempt && f.shortSessions == e.shortSessions
            && f.lastAnnounced == e.lastAnnounced && f.lastAttempt == e.lastAttempt
  {}

  /** What can happen to an entry that is kept. */
  datatype Happening =
    | Announced(at: nat, services: nat)
    | Dialled(at: nat)
    | Shook(at: nat, services: nat, version: nat)
    | FellBack
    | Over(at: nat, outcome: Outcome, spread: real)

  function AfterOne(e: Entry, h: Happening): Entry {
    match h
    case Announced(now, services) => Refreshed(e, now, services)
    case Dialled(now) => e.(lastAttempt := now)
    case Shook(now, services, version) => Reached(e, now, services, version)
    case FellBack => NotedV1(e)
    case Over(now, outcome, r) => if 0.0 <= r < 1.0 then Settled(e, now, outcome, r) else e
  }

  function AfterAll(e: Entry, hs: seq<Happening>): Entry {
    if hs == [] then e else AfterOne(AfterAll(e, hs[..|hs| - 1]), hs[|hs| - 1])
  }

  /** What an entry is filed as: v2 once a handshake used it; v1 only once a handshake did not, or v2 failed and v1
      worked, with nothing known before; and nothing again once the peer announces other services, v2 (bit 11) among
      them, or greets with v2 among them where it was not. */
  lemma FiledAs(e: Entry, h: Happening)
    ensures var t := AfterOne(e, h).transport;
            match h
            case Announced(_, services) =>
              t == if e.transport.V1Only? && services != e.services && services / 2048 % 2 == 1 then HintUnknown
                   else e.transport
            case Shook(_, services, version) =>
              t == if version == 2 || e.transport.V2? then V2
                   else if e.transport.V1Only? && services / 2048 % 2 == 1 && e.services / 2048 % 2 == 0
                   then HintUnknown
                   else V1Only
            case FellBack => t == if e.transport.HintUnknown? then V1Only else e.transport
            case _ => t == e.transport
  {}

  predicate SpokeV2(hs: seq<Happening>) { exists i :: 0 <= i < |hs| && hs[i].Shook? && hs[i].version == 2 }

  lemma SpokeOneMore(init: seq<Happening>, h: Happening)
    ensures SpokeV2(init + [h]) <==> SpokeV2(init) || (h.Shook? && h.version == 2)
  {
    var hs := init + [h];
    assert hs[|init|] == h;
    if SpokeV2(init) {
      var i :| 0 <= i < |init| && init[i].Shook? && init[i].version == 2;
      assert hs[i] == init[i];
    }
    if SpokeV2(hs) {
      var i :| 0 <= i < |hs| && hs[i].Shook? && hs[i].version == 2;
      assert i < |init| ==> init[i] == hs[i];
    }
  }

  lemma OneKeepsV2(e: Entry, h: Happening)
    ensures AfterOne(e, h).transport.V2? <==> e.transport.V2? || (h.Shook? && h.version == 2)
  {}

  /** Over anything that happens to an entry it is filed as speaking v2 exactly if it was, or a handshake since
      used v2: nothing else makes it so, and nothing takes it back. */
  lemma {:induction false} V2IsNeverLost(e: Entry, hs: seq<Happening>)
    ensures AfterAll(e, hs).transport.V2? <==> e.transport.V2? || SpokeV2(hs)
  {
    if hs != [] {
      var init, h := hs[..|hs| - 1], hs[|hs| - 1];
      V2IsNeverLost(e, init);
      OneKeepsV2(AfterAll(e, init), h);
      SpokeOneMore(init, h);
      assert hs == init + [h];
    }
  }

  /** What the outcome makes of an entry's class: our own faults leave it alone, a failure costs a good
      address its standing, and anything the peer answered restores it. */
  lemma HowItEnds(e: Entry, now: nat, outcome: Outcome, r: real)
    requires 0.0 <= r < 1.0
    ensures var c := Settled(e, now, outcome, r).Class();
            match outcome
            case OurFaultOutcome(_) => c == e.Class()
            case Failed => c == if e.lastSuccess > 0 then WasGood else Bad
            case _ => c == if e.lastSuccess > 0 then Good else Unknown
  {}

  /** The next attempt is a delay of this many seconds from now, within a tenth and rounding, or as late as a
      time can be. */
  predicate About(now: nat, next: nat, delay: nat) {
    if next < 0xFFFF_FFFF then now < next && 9 * delay - 5 <= 10 * (next - now) <= 11 * delay + 5
    else next == 0xFFFF_FFFF && 10 * (0xFFFF_FFFF - now) <= 11 * delay + 5
  }

  /** In how many seconds an address is tried again: a day after another chain, whoever asked for it; a minute
      for the operator's own; an hour after a violation; half a minute, an hour or a day after our own faults;
      five seconds after a session of 31 seconds or more with something in it; from a minute on, doubled each
      time, up to an hour after one that was not; the same up to six hours after a failure of an address reached
      before; and from an hour on, doubled twice each time, up to a week after one of an address never reached.
      The counters are the entry's afterwards. */
  function Seconds(outcome: Outcome, manual: bool, reached: bool, failures: nat, shortSessions: nat): nat {
    match outcome
    case OtherChain => 86400
    case Violated => if manual then 60 else 3600
    case OurFaultOutcome(ProxyUnreachable) => if manual then 60 else 30
    case OurFaultOutcome(NetworkUnreachable) => if manual then 60 else 3600
    case OurFaultOutcome(NetworkDisabled) => if manual then 60 else 86400
    case Disconnected(uptime, silent) =>
      if manual then 60
      else if uptime >= 31 && !silent then 5
      else Min(60 * Pow2(Monus(shortSessions, 1)), 3600)
    case Failed =>
      if manual then 60
      else if reached then Min(60 * Pow2(Monus(failures, 1)), 21600)
      else Min(3600 * Pow2(2 * Monus(failures, 1)), 604800)
  }

  /** What the end of an attempt or session does to an entry: only these count, and the next attempt follows. */
  ghost predicate Retried(o: Entry, e: Entry, now: nat, outcome: Outcome) {
    && About(now, e.nextAttempt, Seconds(outcome, o.origin.Manual?, o.lastSuccess > 0, e.failures, e.shortSessions))
    && e.failures == (match outcome
                      case OurFaultOutcome(_) => o.failures
                      case Failed => Min(o.failures + 1, 255)
                      case _ => 0)
    && e.shortSessions == (match outcome
                           case Disconnected(uptime, silent) =>
                             if uptime >= 31 && !silent then 0 else Min(o.shortSessions + 1, 255)
                           case _ => o.shortSessions)
    && e.lastAttemptFailed == (match outcome
                               case OurFaultOutcome(_) => o.lastAttemptFailed
                               case Failed => true
                               case _ => false)
    && e.origin == o.origin && e.lastSuccess == o.lastSuccess && e.services == o.services
    && e.lastAnnounced == o.lastAnnounced && e.lastAttempt == o.lastAttempt && e.transport == o.transport
  }

  lemma ADelayIsAbout(now: nat, delay: nat, r: real)
    requires delay >= 1 && 0.0 <= r < 1.0 && now <= 0xFFFF_FFFF
    ensures About(now, Min(now + Jitter(delay, r), U32_MAX), delay)
  {
    JitterIsClose(delay, r);
  }

  lemma DelayIsSeconds(outcome: Outcome, origin: Origin, reached: bool, failures: nat, shortSessions: nat)
    requires outcome.Failed? ==> failures >= 1
    requires outcome.Disconnected? && !(outcome.uptime >= 31 && !outcome.silent) ==> shortSessions >= 1
    ensures RetryDelay(outcome, origin, reached, failures, shortSessions)
            == Seconds(outcome, origin.Manual?, reached, failures, shortSessions) >= 1
  {
    if outcome.Failed? {
      BackoffDoubles(60, failures, 21600);
      BackoffDoubles(3600, failures, 604800);
    } else if outcome.Disconnected? && !(outcome.uptime >= 31 && !outcome.silent) {
      BackoffDoubles(60, shortSessions, 3600);
    }
    PowersArePositive(shortSessions, failures);
  }

  /** So it is with every entry, whatever the spread drawn. */
  lemma SettledIsRetried(e: Entry, now: nat, outcome: Outcome, r: real)
    requires 0.0 <= r < 1.0 && now <= 0xFFFF_FFFF
    ensures Retried(e, Settled(e, now, outcome, r), now, outcome)
  {
    var j := Judged(e, outcome);
    DelayIsSeconds(outcome, e.origin, e.lastSuccess > 0, j.failures, j.shortSessions);
    ADelayIsAbout(now, Seconds(outcome, e.origin.Manual?, e.lastSuccess > 0, j.failures, j.shortSessions), r);
  }

  lemma PowersArePositive(m: nat, n: nat)
    ensures Pow2(Monus(m, 1)) >= 1 && Pow2(Monus(n, 1)) >= 1 && Pow2(2 * Monus(n, 1)) >= 1
  {
    PowOfTwo(Monus(m, 1));
    SaturatingPowIsPow(2, Monus(m, 1));
    PowOfTwo(Monus(n, 1));
    SaturatingPowIsPow(2, Monus(n, 1));
    SaturatingPowIsPow(4, Monus(n, 1));
  }

  /** An address never reached that is still worth keeping has waited for an exact power of four hours:
      it is forgotten before the cap on its delay could be met. */
  lemma NeverReachedWaits(e: Entry, now: nat, r: real)
    requires e.origin.Gossip? && e.lastSuccess == 0 && 0.0 <= r < 1.0
    requires !Settled(e, now, Failed, r).Forgettable(now)
    ensures var j := Judged(e, Failed);
            && j.failures <= 4
            && RetryDelay(Failed, j.origin, false, j.failures, j.shortSessions) == BAD_BASE * Pow(4, j.failures - 1)
            && BAD_BASE * Pow(4, j.failures - 1) < BAD_CAP
  {
    var j := Judged(e, Failed);
    BackoffIsExact(BAD_BASE, 4, j.failures, BAD_CAP);
    assert Pow(4, 0) == 1 && Pow(4, 1) == 4 && Pow(4, 2) == 16 && Pow(4, 3) == 64;
  }

  /** An address never reached is forgotten after its fifth failure in a row, and after its third if it was last
      announced more than thirty days ago; nothing else makes the book forget it. */
  lemma NeverReachedIsForgotten(e: Entry, now: nat, outcome: Outcome, r: real)
    requires e.lastSuccess == 0 && 0.0 <= r < 1.0
    ensures var n := if outcome.Failed? then Min(e.failures + 1, 255)
                     else if outcome.OurFaultOutcome? then e.failures else 0;
            Settled(e, now, outcome, r).Forgettable(now) <==>
            e.origin.Gossip? && (n >= 5 || (n >= 3 && now > e.lastAnnounced + 30 * 24 * 60 * 60))
  {}

  /** However a session ends and however well it went, its address is forgotten exactly if it came from
      gossip and the handshake is more than thirty days ago. */
  lemma LongSessionIsForgotten(e: Entry, began: nat, services: nat, version: nat, now: nat, outcome: Outcome, r: real)
    requires began > 0 && 0.0 <= r < 1.0
    ensures Settled(Reached(e, began, services, version), now, outcome, r).Forgettable(now)
            <==> e.origin.Gossip? && now > began + WAS_GOOD_FORGET_AFTER
  {}

  /** Sessions in a row that were short or silent: since one that was not, whatever came between. */
  function ShortOnes(hs: seq<Happening>): nat {
    if hs == [] then 0
    else
      var before := ShortOnes(hs[..|hs| - 1]);
      match hs[|hs| - 1]
      case Over(_, Disconnected(uptime, silent), r) =>
        if !(0.0 <= r < 1.0) then before else if uptime >= 31 && !silent then 0 else before + 1
      case _ => before
  }

  /** Failures in a row: since a handshake or the end of a session, faults of our own not counted. */
  function FailedOnes(hs: seq<Happening>): nat {
    if hs == [] then 0
    else
      var before := FailedOnes(hs[..|hs| - 1]);
      match hs[|hs| - 1]
      case Shook(_, _, _) => 0
      case Over(_, outcome, r) =>
        if !(0.0 <= r < 1.0) || outcome.OurFaultOutcome? then before else if outcome.Failed? then before + 1 else 0
      case _ => before
  }

  /** The counters of an entry count them, in a byte each. */
  lemma {:induction false} CountersCount(e: Entry, hs: seq<Happening>)
    requires e.failures == 0 && e.shortSessions == 0
    ensures AfterAll(e, hs).shortSessions == Min(ShortOnes(hs), 255)
    ensures AfterAll(e, hs).failures == Min(FailedOnes(hs), 255)
  {
    if hs != [] { CountersCount(e, hs[..|hs| - 1]); }
  }

  /** What an entry says of its address is what happened last: when it was announced, dialled and reached, and the
      services it came with. */
  lemma {:induction false} HistoryIsLast(e: Entry, hs: seq<Happening>, i: nat)
    requires i < |hs|
    ensures (hs[i].Announced? && forall j | i < j < |hs| :: !hs[j].Announced?) ==>
              AfterAll(e, hs).lastAnnounced == hs[i].at
    ensures (hs[i].Dialled? && forall j | i < j < |hs| :: !hs[j].Dialled?) ==> AfterAll(e, hs).lastAttempt == hs[i].at
    ensures (hs[i].Shook? && forall j | i < j < |hs| :: !hs[j].Shook?) ==> AfterAll(e, hs).lastSuccess == hs[i].at
    ensures (hs[i].Announced? || hs[i].Shook?) && (forall j | i < j < |hs| :: !hs[j].Announced? && !hs[j].Shook?) ==>
              AfterAll(e, hs).services == hs[i].services
  {
    if i < |hs| - 1 { HistoryIsLast(e, hs[..|hs| - 1], i); }
  }

  // ---- Picking -----------------------------------------------------------------------------

  /** Which reservoir an entry goes to. */
  datatype Kind = ManualKind | ReconnectKind | UnknownKind | WasGoodKind | BadKind
  {
    /** Where its reservoir stands among the five. */
    function Slot(): (i: nat)
      ensures i < 5
    {
      match this
      case ManualKind => 0
      case ReconnectKind => 1
      case UnknownKind => 2
      case WasGoodKind => 3
      case BadKind => 4
    }
  }

  /** How many a reservoir holds: the good addresses' has its own limit, the others the budget. */
  function Room(i: nat, budget: nat): nat { if i == ReconnectKind.Slot() then MAX_RECONNECTS else budget }

  function KindOf(e: Entry): Kind {
    if e.origin.Manual? then ManualKind
    else match e.Class()
      case Good => ReconnectKind
      case Unknown => UnknownKind
      case WasGood => WasGoodKind
      case Bad => BadKind
  }

  /** The entries that may be dialled now: due, allowed, and without a task. */
  ghost function Due(entries: Entries, active: Active, now: nat, dialable: Addr -> bool): set<Addr> {
    set a | a in entries && a !in active && entries[a].nextAttempt <= now && dialable(a)
  }

  ghost function Bucket(entries: Entries, active: Active, now: nat, dialable: Addr -> bool, kind: Kind): set<Addr> {
    set a | a in Due(entries, active, now, dialable) && KindOf(entries[a]) == kind
  }

  /** The due entries by kind. */
  datatype Buckets = Buckets(manual: set<Addr>, reconnect: set<Addr>, unknown: set<Addr>, wasGood: set<Addr>,
                             bad: set<Addr>)
  {
    ghost function At(i: nat): set<Addr>
      requires i < 5
    {
      if i == 0 then manual else if i == 1 then reconnect else if i == 2 then unknown
      else if i == 3 then wasGood else bad
    }

    ghost function All(): set<Addr> { manual + reconnect + unknown + wasGood + bad }

    ghost predicate Apart() {
      && manual !! reconnect && manual + reconnect !! unknown && manual + reconnect + unknown !! wasGood
      && manual + reconnect + unknown + wasGood !! bad
    }
  }

  ghost function BucketsOf(entries: Entries, active: Active, now: nat, dialable: Addr -> bool): Buckets {
    Buckets(Bucket(entries, active, now, dialable, ManualKind),
            Bucket(entries, active, now, dialable, ReconnectKind),
            Bucket(entries, active, now, dialable, UnknownKind),
            Bucket(entries, active, now, dialable, WasGoodKind),
            Bucket(entries, active, now, dialable, BadKind))
  }

  lemma BucketsAreApart(entries: Entries, active: Active, now: nat, dialable: Addr -> bool)
    ensures BucketsOf(entries, active, now, dialable).Apart()
    ensures BucketsOf(entries, active, now, dialable).All() == Due(entries, active, now, dialable)
  {
    var b := BucketsOf(entries, active, now, dialable);
    forall a | a in Due(entries, active, now, dialable) ensures a in b.All() {
      var kind := KindOf(entries[a]);
      assert a in Bucket(entries, active, now, dialable, kind);
    }
  }

  /** The five reservoirs of a pick. */
  datatype Samples = Samples(manual: seq<Addr>, reconnect: seq<Addr>, unknown: seq<Addr>, wasGood: seq<Addr>,
                             bad: seq<Addr>)
  {
    function Available(): Alloc.Counts { [|unknown|, |wasGood|, |bad|] }
  }

  /** Each reservoir holds a sample of its bucket. */
  ghost predicate Sorted(b: Buckets, budget: nat, s: Samples) {
    && R.Sample(budget, s.manual, b.manual) && R.Sample(MAX_RECONNECTS, s.reconnect, b.reconnect)
    && R.Sample(budget, s.unknown, b.unknown) && R.Sample(budget, s.wasGood, b.wasGood)
    && R.Sample(budget, s.bad, b.bad)
  }

  /** None twice, and all of them from `from`. */
  ghost predicate Drawn(s: seq<Addr>, from: set<Addr>) {
    Distinct(s) && forall x | x in s :: x in from
  }

  lemma Join(a: seq<Addr>, b: seq<Addr>, c: seq<Addr>, as_: set<Addr>, bs: set<Addr>, cs: set<Addr>)
    requires Drawn(a, as_) && Drawn(b, bs) && as_ !! bs && c == a + b && cs == as_ + bs
    ensures Drawn(c, cs)
  {
    forall i, j | 0 <= i < j < |c| ensures c[i] != c[j] {
      if i < |a| <= j { assert a[i] in a && b[j - |a|] in b; }
    }
  }

  lemma JoinFive(a: seq<Addr>, b: seq<Addr>, c: seq<Addr>, d: seq<Addr>, e: seq<Addr>, buckets: Buckets)
    requires Drawn(a, buckets.manual) && Drawn(b, buckets.reconnect)
    requires Drawn(c, buckets.unknown) && Drawn(d, buckets.wasGood) && Drawn(e, buckets.bad) && buckets.Apart()
    ensures Drawn(a + b + c + d + e, buckets.All())
  {
    var ab, abs := a + b, buckets.manual + buckets.reconnect;
    Join(a, b, ab, buckets.manual, buckets.reconnect, abs);
    var abc, abcs := ab + c, abs + buckets.unknown;
    Join(ab, c, abc, abs, buckets.unknown, abcs);
    var abcd, abcds := abc + d, abcs + buckets.wasGood;
    Join(abc, d, abcd, abcs, buckets.wasGood, abcds);
    Join(abcd, e, abcd + e, abcds, buckets.bad, abcds + buckets.bad);
  }

  predicate Takes(s: Samples, take: Alloc.Counts) {
    take[0] <= |s.unknown| && take[1] <= |s.wasGood| && take[2] <= |s.bad|
  }

  function Laid(s: Samples, take: Alloc.Counts): seq<Addr>
    requires Takes(s, take)
  {
    s.manual + s.reconnect + s.unknown[..take[0]] + s.wasGood[..take[1]] + s.bad[..take[2]]
  }

  lemma SampleIsDrawn(k: nat, s: seq<Addr>, n: nat, bucket: set<Addr>)
    requires R.Sample(k, s, bucket) && n <= |s|
    ensures Drawn(s, bucket) && Drawn(s[..n], bucket) && |s| == Min(k, |bucket|)
  {}

  lemma LaidIsDrawn(b: Buckets, budget: nat, s: Samples, take: Alloc.Counts)
    requires Sorted(b, budget, s) && b.Apart() && Takes(s, take)
    ensures Drawn(Laid(s, take), b.All())
  {
    SampleIsDrawn(budget, s.manual, 0, b.manual);
    SampleIsDrawn(MAX_RECONNECTS, s.reconnect, 0, b.reconnect);
    SampleIsDrawn(budget, s.unknown, take[0], b.unknown);
    SampleIsDrawn(budget, s.wasGood, take[1], b.wasGood);
    SampleIsDrawn(budget, s.bad, take[2], b.bad);
    JoinFive(s.manual, s.reconnect, s.unknown[..take[0]], s.wasGood[..take[1]], s.bad[..take[2]], b);
  }

  /** The dials a pick starts. */
  ghost function PickSize(b: Buckets, budget: nat): (n: nat)
    ensures n <= MAX_RECONNECTS + 2 * budget
  {
    Min(budget, |b.manual|) + Min(MAX_RECONNECTS, |b.reconnect|)
    + Min(budget, |b.unknown| + |b.wasGood| + |b.bad|)
  }

  ghost predicate Filled(s: Samples, budget: nat, b: Buckets) {
    && |s.manual| == Min(budget, |b.manual|) && |s.reconnect| == Min(MAX_RECONNECTS, |b.reconnect|)
    && |s.unknown| == Min(budget, |b.unknown|) && |s.wasGood| == Min(budget, |b.wasGood|)
    && |s.bad| == Min(budget, |b.bad|)
  }

  /** The reservoirs hold as many as there were candidates, or as fit. */
  lemma SortedIsFilled(b: Buckets, budget: nat, s: Samples)
    requires Sorted(b, budget, s)
    ensures Filled(s, budget, b)
  {
    SampleIsDrawn(budget, s.manual, 0, b.manual);
    SampleIsDrawn(MAX_RECONNECTS, s.reconnect, 0, b.reconnect);
    SampleIsDrawn(budget, s.unknown, 0, b.unknown);
    SampleIsDrawn(budget, s.wasGood, 0, b.wasGood);
    SampleIsDrawn(budget, s.bad, 0, b.bad);
  }

  lemma LaidSize(b: Buckets, s: Samples, take: Alloc.Counts, credit: Alloc.Credit, budget: nat)
    requires Filled(s, budget, b) && take == Alloc.Allocate(credit, budget, s.Available()).1
    ensures Takes(s, take) && |Laid(s, take)| == PickSize(b, budget)
  {
    Alloc.NothingIsWasted(credit, budget, s.Available());
  }

  /** The result of a pick: the reservoirs filled from the whole table, and the budget shared out by credit. */
  ghost predicate Picked(b: Buckets, budget: nat, credit: Alloc.Credit, credit': Alloc.Credit, s: Samples,
                         take: Alloc.Counts, out: seq<Addr>) {
    && Sorted(b, budget, s)
    && (credit', take) == Alloc.Allocate(credit, budget, s.Available())
    && Takes(s, take) && out == Laid(s, take)
  }

  /** A pick hands out only what is due and nothing twice; in number, the manual and the reconnects that
      fit and every dial the budget allows. */
  lemma PickedIsDue(b: Buckets, budget: nat, credit: Alloc.Credit, credit': Alloc.Credit, s: Samples,
                    take: Alloc.Counts, out: seq<Addr>)
    requires Picked(b, budget, credit, credit', s, take, out) && b.Apart()
    ensures Drawn(out, b.All()) && |out| == PickSize(b, budget)
  {
    LaidIsDrawn(b, budget, s, take);
    SortedIsFilled(b, budget, s);
    LaidSize(b, s, take, credit, budget);
  }

  // ---- Who is picked -------------------------------------------------------------------------

  /** The addresses of a table that may be dialled now. */
  ghost function Eligible(entries: Entries, active: Active, now: nat, dialable: Addr -> bool): set<Addr> {
    set a | a in entries && a !in active && entries[a].nextAttempt <= now && dialable(a)
  }

  /** Those among some that came from gossip and are of a class. */
  ghost function OfClass(entries: Entries, among: set<Addr>, which: Class): set<Addr> {
    set a | a in among && a in entries && entries[a].origin.Gossip? && entries[a].Class() == which
  }

  ghost function Operators(entries: Entries, among: set<Addr>): set<Addr> {
    set a | a in among && a in entries && entries[a].origin.Manual?
  }

  /** How many of each class a pick dials: as many of those never tried, once reached and never reached as credit
      gave them of the budget; of the good ones up to twenty-five, and of the operator's up to the budget, as
      many as may be dialled. Credit is told how many of its classes there are, up to the budget. */
  ghost predicate SharedOut(entries: Entries, active: Active, now: nat, dialable: Addr -> bool, budget: nat,
                            credit: Alloc.Credit, credit': Alloc.Credit, take: Alloc.Counts, out: set<Addr>) {
    var due := Eligible(entries, active, now, dialable);
    && out <= due
    && |OfClass(entries, out, Unknown)| == take[0]
    && |OfClass(entries, out, WasGood)| == take[1]
    && |OfClass(entries, out, Bad)| == take[2]
    && |OfClass(entries, out, Good)| == Min(25, |OfClass(entries, due, Good)|)
    && |Operators(entries, out)| == Min(budget, |Operators(entries, due)|)
    && (credit', take) == Alloc.Allocate(credit, budget,
                                         [Min(budget, |OfClass(entries, due, Unknown)|),
                                          Min(budget, |OfClass(entries, due, WasGood)|),
                                          Min(budget, |OfClass(entries, due, Bad)|)])
  }

  /** The buckets hold what they are named for. */
  lemma BucketsAreClasses(entries: Entries, active: Active, now: nat, dialable: Addr -> bool)
    ensures var b, due := BucketsOf(entries, active, now, dialable), Eligible(entries, active, now, dialable);
            && b.manual == Operators(entries, due) && b.reconnect == OfClass(entries, due, Good)
            && b.unknown == OfClass(entries, due, Unknown) && b.wasGood == OfClass(entries, due, WasGood)
            && b.bad == OfClass(entries, due, Bad) && b.All() == due
  {
    BucketsAreApart(entries, active, now, dialable);
  }

  lemma FiveParts(a: seq<Addr>, b: seq<Addr>, c: seq<Addr>, d: seq<Addr>, e: seq<Addr>, buckets: Buckets)
    requires Drawn(a, buckets.manual) && Drawn(b, buckets.reconnect) && Drawn(c, buckets.unknown)
    requires Drawn(d, buckets.wasGood) && Drawn(e, buckets.bad) && buckets.Apart()
    ensures var out := ToSet(a + b + c + d + e);
            && out * buckets.manual == ToSet(a) && out * buckets.reconnect == ToSet(b)
            && out * buckets.unknown == ToSet(c) && out * buckets.wasGood == ToSet(d) && out * buckets.bad == ToSet(e)
  {
    assert ToSet(a + b + c + d + e) == ToSet(a) + ToSet(b) + ToSet(c) + ToSet(d) + ToSet(e);
    assert ToSet(a) <= buckets.manual && ToSet(b) <= buckets.reconnect && ToSet(c) <= buckets.unknown;
    assert ToSet(d) <= buckets.wasGood && ToSet(e) <= buckets.bad;
  }

  lemma LaidInParts(b: Buckets, budget: nat, s: Samples, take: Alloc.Counts)
    requires Sorted(b, budget, s) && b.Apart() && Takes(s, take)
    ensures var out := ToSet(Laid(s, take));
            && out * b.manual == ToSet(s.manual) && out * b.reconnect == ToSet(s.reconnect)
            && out * b.unknown == ToSet(s.unknown[..take[0]]) && out * b.wasGood == ToSet(s.wasGood[..take[1]])
            && out * b.bad == ToSet(s.bad[..take[2]])
  {
    SampleIsDrawn(budget, s.manual, 0, b.manual);
    SampleIsDrawn(MAX_RECONNECTS, s.reconnect, 0, b.reconnect);
    SampleIsDrawn(budget, s.unknown, take[0], b.unknown);
    SampleIsDrawn(budget, s.wasGood, take[1], b.wasGood);
    SampleIsDrawn(budget, s.bad, take[2], b.bad);
    FiveParts(s.manual, s.reconnect, s.unknown[..take[0]], s.wasGood[..take[1]], s.bad[..take[2]], b);
  }

  lemma PartSize(k: nat, s: seq<Addr>, n: nat, bucket: set<Addr>)
    requires R.Sample(k, s, bucket) && n <= |s|
    ensures |ToSet(s)| == Min(k, |bucket|) && |ToSet(s[..n])| == n
  {
    SetOfDistinct(s);
    SetOfDistinct(s[..n]);
  }

  /** How many of each bucket are handed out. */
  lemma LaidByBucket(b: Buckets, budget: nat, s: Samples, take: Alloc.Counts)
    requires Sorted(b, budget, s) && b.Apart() && Takes(s, take)
    ensures var out := ToSet(Laid(s, take));
            && |out * b.manual| == Min(budget, |b.manual|) && |out * b.reconnect| == Min(MAX_RECONNECTS, |b.reconnect|)
            && |out * b.unknown| == take[0] && |out * b.wasGood| == take[1] && |out * b.bad| == take[2]
  {
    LaidInParts(b, budget, s, take);
    PartSize(budget, s.manual, 0, b.manual);
    PartSize(MAX_RECONNECTS, s.reconnect, 0, b.reconnect);
    PartSize(budget, s.unknown, take[0], b.unknown);
    PartSize(budget, s.wasGood, take[1], b.wasGood);
    PartSize(budget, s.bad, take[2], b.bad);
  }

  lemma Among(entries: Entries, due: set<Addr>, out: set<Addr>)
    requires out <= due
    ensures forall which :: OfClass(entries, out, which) == out * OfClass(entries, due, which)
    ensures Operators(entries, out) == out * Operators(entries, due)
  {}

  /** A pick shares its dials out by class. */
  lemma PickedIsShared(entries: Entries, active: Active, now: nat, dialable: Addr -> bool, budget: nat,
                       credit: Alloc.Credit, credit': Alloc.Credit, s: Samples, take: Alloc.Counts, out: seq<Addr>)
    requires Picked(BucketsOf(entries, active, now, dialable), budget, credit, credit', s, take, out)
    ensures SharedOut(entries, active, now, dialable, budget, credit, credit', take, ToSet(out))
  {
    var b, due := BucketsOf(entries, active, now, dialable), Eligible(entries, active, now, dialable);
    BucketsAreApart(entries, active, now, dialable);
    BucketsAreClasses(entries, active, now, dialable);
    LaidIsDrawn(b, budget, s, take);
    LaidByBucket(b, budget, s, take);
    SortedIsFilled(b, budget, s);
    Among(entries, due, ToSet(out));
  }

  lemma DueIsFiled(entries: Entries, active: Active, now: nat, dialable: Addr -> bool, a: Addr)
    requires a in Due(entries, active, now, dialable)
    ensures forall i | 0 <= i < 5 ::
              a in BucketsOf(entries, active, now, dialable).At(i) <==> i == KindOf(entries[a]).Slot()
  {}

  lemma BucketsInTable(entries: Entries, active: Active, now: nat, dialable: Addr -> bool)
    ensures forall i | 0 <= i < 5 :: BucketsOf(entries, active, now, dialable).At(i) <= entries.Keys
  {}

  lemma NotDue(entries: Entries, active: Active, now: nat, dialable: Addr -> bool, a: Addr)
    requires a !in Due(entries, active, now, dialable)
    ensures forall i | 0 <= i < 5 :: a !in BucketsOf(entries, active, now, dialable).At(i)
  {}

  // ---- Marks left on the table -------------------------------------------------------------

  /** Addresses the operator supplied, added or promoted. */
  function Manually(entries: Entries, now: nat, addrs: set<Addr>): Entries {
    map a | a in entries.Keys + addrs ::
      if a !in entries then NewEntry(now, 0, Manual)
      else if a in addrs then entries[a].(origin := Manual) else entries[a]
  }

  /** One the operator supplies keeps its history if there is one, and is due at once if there is none. */
  lemma SuppliedAs(entries: Entries, now: nat, addrs: set<Addr>, a: Addr)
    ensures var t := Manually(entries, now, addrs);
            && (a in t <==> a in entries || a in addrs)
            && (a in entries && a !in addrs ==> t[a] == entries[a])
            && (a in entries && a in addrs ==> t[a].origin.Manual? && t[a].(origin := entries[a].origin) == entries[a])
            && (a !in entries && a in addrs ==> t[a] == Entry(0, now, 0, 0, 0, 0, 0, false, Manual, HintUnknown))
  {}

  /** Those of them that were not the operator's before. */
  function Promoted(entries: Entries, addrs: set<Addr>): set<Addr> {
    set a | a in addrs && (a !in entries || !entries[a].origin.Manual?)
  }

  lemma ManuallyOneMore(entries: Entries, now: nat, done: set<Addr>, a: Addr, e: Entries)
    requires e == Manually(entries, now, done)
    ensures Manually(entries, now, done + {a})
            == e[a := if a !in e then NewEntry(now, 0, Manual) else e[a].(origin := Manual)]
  {}

  lemma PromotedOneMore(entries: Entries, done: set<Addr>, a: Addr)
    ensures |Promoted(entries, done + {a})|
            == |Promoted(entries, done)| + if a !in done && (a !in entries || !entries[a].origin.Manual?) then 1 else 0
  {
    if a !in done && (a !in entries || !entries[a].origin.Manual?) {
      assert Promoted(entries, done + {a}) == Promoted(entries, done) + {a};
    } else {
      assert Promoted(entries, done + {a}) == Promoted(entries, done);
    }
  }

  lemma ManuallyThere(entries: Entries, now: nat, done: set<Addr>, a: Addr, e: Entries)
    requires e == Manually(entries, now, done)
    ensures a !in e || !e[a].origin.Manual? <==> a !in done && (a !in entries || !entries[a].origin.Manual?)
  {}

  function Attempted(entries: Entries, now: nat, addrs: set<Addr>): Entries {
    map a | a in entries :: if a in addrs then entries[a].(lastAttempt := now) else entries[a]
  }

  /** Being dialled happens to the addresses picked, and to no other. */
  lemma AttemptedAs(entries: Entries, now: nat, addrs: set<Addr>, a: Addr)
    requires a in entries
    ensures Attempted(entries, now, addrs)[a] == if a in addrs then AfterOne(entries[a], Dialled(now)) else entries[a]
    ensures Attempted(entries, now, addrs).Keys == entries.Keys
  {}

  function InUse(active: Active, addrs: set<Addr>): Active {
    map a | a in active.Keys + addrs :: if a in addrs then Dialing else active[a]
  }

  function DialingSet(active: Active): set<Addr> {
    set a | a in active && active[a].Dialing?
  }
}
