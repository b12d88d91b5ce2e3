/**
 What one session lets its peer have: answers to getheaders and addresses taken from gossip, each
 out of a token bucket that refills with time. Time is in seconds, exact.
 */
module Session {

  const GETHEADERS_BURST := 4.0
  const GETHEADERS_RATE := 1.0 / 30.0
  const ADDR_BURST := 1000.0
  const ADDR_RATE := 0.1

  type Addr = nat

  datatype Bucket = Bucket(level: real, updated: real)

  function Capped(level: real, burst: real): real { if level < burst then level else burst }

  function Refill(b: Bucket, now: real, rate: real, burst: real): Bucket {
    Bucket(Capped(b.level + (now - b.updated) * rate, burst), now)
  }

  /** Refilling in two steps lands where one step would have. */
  lemma RefillInSteps(b: Bucket, mid: real, now: real, rate: real, burst: real)
    requires b.updated <= mid <= now && 0.0 <= rate
    ensures Refill(Refill(b, mid, rate, burst), now, rate, burst) == Refill(b, now, rate, burst)
  {
    assert (now - b.updated) * rate == (mid - b.updated) * rate + (now - mid) * rate;
    assert 0.0 <= (now - mid) * rate;
  }

  datatype State = State(headers: Bucket, addrs: Bucket, outstanding: bool)

  datatype Event =
    | GetHeaders(at: real)
    | Gossip(at: real, received: nat, parsed: seq<Addr>)
    | SendGetAddr(at: real)

  /** What an event brings about: an answer sent, or addresses passed on and whether they were asked for. */
  datatype Effect = Effect(answered: bool, passed: seq<Addr>, solicited: bool)

  const NOTHING := Effect(false, [], false)

  function Whole(level: real): nat { if level < 0.0 then 0 else level.Floor }

  /** A one-entry message announcing the peer's own address is not the reply to our getaddr. */
  predicate SelfAnnouncement(peer: Addr, received: nat, parsed: seq<Addr>) {
    received == 1 && |parsed| == 1 && parsed[0] == peer
  }

  function Step(peer: Addr, s: State, e: Event): (State, Effect) {
    match e
    case GetHeaders(now) =>
      var b := Refill(s.headers, now, GETHEADERS_RATE, GETHEADERS_BURST);
      if b.level < 1.0 then (s.(headers := b), NOTHING)
      else (s.(headers := b.(level := b.level - 1.0)), NOTHING.(answered := true))
    case Gossip(now, received, parsed) =>
      var solicited := !SelfAnnouncement(peer, received, parsed) && s.outstanding;
      var outstanding := SelfAnnouncement(peer, received, parsed) && s.outstanding;
      var b := Refill(s.addrs, now, ADDR_RATE, ADDR_BURST);
      if solicited then (s.(addrs := b, outstanding := outstanding), Effect(false, parsed, true))
      else
        var kept := if |parsed| <= Whole(b.level) then |parsed| else Whole(b.level);
        (s.(addrs := b.(level := b.level - kept as real), outstanding := outstanding),
         Effect(false, parsed[..kept], false))
    case SendGetAddr(_) => (s.(outstanding := true), NOTHING)
  }

  /** One session's limits, updated as messages come in. */
  class Limits {
    const peer: Addr
    var headersLevel: real
    var headersUpdated: real
    var addrLevel: real
    var addrUpdated: real
    var getaddrOutstanding: bool

    ghost function Value(): State
      reads this
    {
      State(Bucket(headersLevel, headersUpdated), Bucket(addrLevel, addrUpdated), getaddrOutstanding)
    }

    constructor (peer: Addr, now: real)
      ensures Value() == State(Bucket(GETHEADERS_BURST, now), Bucket(ADDR_BURST, now), false) && this.peer == peer
    {
      this.peer := peer;
      headersLevel, headersUpdated := GETHEADERS_BURST, now;
      addrLevel, addrUpdated := ADDR_BURST, now;
      getaddrOutstanding := false;
    }

    method MayAnswerGetheaders(now: real) returns (may: bool)
      modifies this
      ensures (Value(), NOTHING.(answered := may)) == Step(peer, old(Value()), GetHeaders(now))
    {
      var elapsed := now - headersUpdated;
      headersUpdated := now;
      headersLevel := Capped(headersLevel + elapsed * GETHEADERS_RATE, GETHEADERS_BURST);
      if headersLevel < 1.0 {
        return false;
      }
      headersLevel := headersLevel - 1.0;
      return true;
    }

    method OfferGossip(now: real, received: nat, parsed: seq<Addr>) returns (passed: seq<Addr>, solicited: bool)
      modifies this
      ensures (Value(), Effect(false, passed, solicited)) == Step(peer, old(Value()), Gossip(now, received, parsed))
    {
      solicited := false;
      if !SelfAnnouncement(peer, received, parsed) {
        solicited := getaddrOutstanding;
        getaddrOutstanding := false;
      }
      var elapsed := now - addrUpdated;
      addrUpdated := now;
      addrLevel := Capped(addrLevel + elapsed * ADDR_RATE, ADDR_BURST);
      var rateLimited := 0;
      if !solicited {
        var allowed := Whole(addrLevel);
        if |parsed| > allowed {
          rateLimited := |parsed| - allowed;
        }
        addrLevel := addrLevel - (|parsed| - rateLimited) as real;
      }
      passed := parsed[..|parsed| - rateLimited];
      assert parsed[..|parsed|] == parsed;
    }

    method SendGetAddr(now: real)
      modifies this
      ensures (Value(), NOTHING) == Step(peer, old(Value()), Event.SendGetAddr(now))
    {
      getaddrOutstanding := true;
    }
  }

  // ---- Runs --------------------------------------------------------------------------------

  function Run(peer: Addr, s: State, es: seq<Event>): State {
    if es == [] then s else Step(peer, Run(peer, s, es[..|es| - 1]), es[|es| - 1]).0
  }

  function LastEffect(peer: Addr, s: State, es: seq<Event>): Effect
    requires es != []
  {
    Step(peer, Run(peer, s, es[..|es| - 1]), es[|es| - 1]).1
  }

  function Answered(peer: Addr, s: State, es: seq<Event>): nat {
    if es == [] then 0
    else Answered(peer, s, es[..|es| - 1]) + if LastEffect(peer, s, es).answered then 1 else 0
  }

  /** Addresses passed on that nobody asked for. */
  function Unsolicited(peer: Addr, s: State, es: seq<Event>): nat {
    if es == [] then 0
    else Unsolicited(peer, s, es[..|es| - 1])
         + if LastEffect(peer, s, es).solicited then 0 else |LastEffect(peer, s, es).passed|
  }

  function Replies(peer: Addr, s: State, es: seq<Event>): nat {
    if es == [] then 0
    else Replies(peer, s, es[..|es| - 1]) + if LastEffect(peer, s, es).solicited then 1 else 0
  }

  function Asked(es: seq<Event>): nat {
    if es == [] then 0 else Asked(es[..|es| - 1]) + if es[|es| - 1].SendGetAddr? then 1 else 0
  }

  /** Events in the order they happen, none before `from`. */
  ghost predicate InOrder(from: real, es: seq<Event>) {
    && (forall i | 0 <= i < |es| :: from <= es[i].at)
    && (forall i, j | 0 <= i < j < |es| :: es[i].at <= es[j].at)
  }

  /** A state a session can be in at or before `at`. */
  ghost predicate Possible(s: State, at: real) {
    && 0.0 <= s.headers.level <= GETHEADERS_BURST && s.headers.updated <= at
    && 0.0 <= s.addrs.level <= ADDR_BURST && s.addrs.updated <= at
  }

  lemma StepIsPossible(peer: Addr, s: State, e: Event)
    requires Possible(s, e.at)
    ensures Possible(Step(peer, s, e).0, e.at)
  {}

  /** A bucket drawn on since `from`: what has been taken is what it started with, plus what has come
      back, less what is left. */
  ghost predicate Balanced(b: Bucket, from: real, taken: real, rate: real, burst: real) {
    if b.updated < from then taken == 0.0 else taken + b.level <= burst + (b.updated - from) * rate
  }

  lemma DrawKeepsBalance(b: Bucket, from: real, now: real, taken: real, more: real, rate: real, burst: real)
    requires b.updated <= now && from <= now && 0.0 <= rate && b.level <= burst && Balanced(b, from, taken, rate, burst)
    ensures Balanced(Bucket(Refill(b, now, rate, burst).level - more, now), from, taken + more, rate, burst)
  {
    assert (now - from) * rate == (now - b.updated) * rate + (b.updated - from) * rate;
    assert 0.0 <= (now - from) * rate;
  }

  lemma {:induction false} RunKeepsBalance(peer: Addr, s: State, from: real, es: seq<Event>)
    requires Possible(s, from) && InOrder(from, es)
    ensures Possible(Run(peer, s, es), if es == [] then from else es[|es| - 1].at)
    ensures Balanced(Run(peer, s, es).headers, from, Answered(peer, s, es) as real, GETHEADERS_RATE, GETHEADERS_BURST)
    ensures Balanced(Run(peer, s, es).addrs, from, Unsolicited(peer, s, es) as real, ADDR_RATE, ADDR_BURST)
  {
    if es != [] {
      var init, e := es[..|es| - 1], es[|es| - 1];
      RunKeepsBalance(peer, s, from, init);
      var u := Run(peer, s, init);
      StepIsPossible(peer, u, e);
      var f := LastEffect(peer, s, es);
      match e {
        case GetHeaders(now) =>
          DrawKeepsBalance(u.headers, from, now, Answered(peer, s, init) as real, if f.answered then 1.0 else 0.0,
                           GETHEADERS_RATE, GETHEADERS_BURST);
        case Gossip(now, _, _) =>
          DrawKeepsBalance(u.addrs, from, now, Unsolicited(peer, s, init) as real,
                           if f.solicited then 0.0 else |f.passed| as real, ADDR_RATE, ADDR_BURST);
        case SendGetAddr(_) =>
      }
    }
  }

  /** Over any span of any run, from `from` to the last event in it, getheaders answers number at most
      four and one every thirty seconds, and unsolicited addresses at most a thousand and one every ten. */
  lemma SpanIsLimited(peer: Addr, s: State, from: real, es: seq<Event>)
    requires Possible(s, from) && InOrder(from, es) && es != []
    ensures var span := es[|es| - 1].at - from;
            && Answered(peer, s, es) as real <= 4.0 + span / 30.0
            && Unsolicited(peer, s, es) as real <= 1000.0 + span / 10.0
  {
    RunKeepsBalance(peer, s, from, es);
  }

  /** Announcements let past the limit are no more than the times we asked. */
  lemma {:induction false} RepliesAreAskedFor(peer: Addr, s: State, es: seq<Event>)
    ensures Replies(peer, s, es) + (if Run(peer, s, es).outstanding then 1 else 0)
            <= Asked(es) + (if s.outstanding then 1 else 0)
  {
    if es != [] { RepliesAreAskedFor(peer, s, es[..|es| - 1]); }
  }

  // ---- And no less ---------------------------------------------------------------------------

  /** Nothing but the peer's own address, alone, has been gossiped from the k-th event on. */
  ghost predicate OnlyItself(peer: Addr, es: seq<Event>, k: nat) {
    forall i | k <= i < |es| && es[i].Gossip? :: es[i].received == 1 && es[i].parsed == [peer]
  }

  /** A getaddr was sent, or was out to begin with, and nothing but the peer's own address came since. */
  ghost predicate Awaiting(peer: Addr, s: State, es: seq<Event>) {
    || (s.outstanding && OnlyItself(peer, es, 0))
    || exists k :: 0 <= k < |es| && es[k].SendGetAddr? && OnlyItself(peer, es, k)
  }

  lemma OneMoreIsItself(peer: Addr, init: seq<Event>, e: Event, k: nat)
    requires k <= |init|
    ensures OnlyItself(peer, init + [e], k)
            <==> OnlyItself(peer, init, k) && (e.Gossip? ==> e.received == 1 && e.parsed == [peer])
  {
    var es := init + [e];
    assert es[|init|] == e;
    assert forall i | k <= i < |init| :: es[i] == init[i];
  }

  lemma OneMoreAwaits(peer: Addr, s: State, init: seq<Event>, e: Event)
    ensures Awaiting(peer, s, init + [e])
            <==> e.SendGetAddr? || (Awaiting(peer, s, init) && (e.Gossip? ==> e.received == 1 && e.parsed == [peer]))
  {
    var es := init + [e];
    assert es[|init|] == e;
    forall k: nat | k <= |init|
      ensures OnlyItself(peer, es, k)
              <==> OnlyItself(peer, init, k) && (e.Gossip? ==> e.received == 1 && e.parsed == [peer])
    {
      OneMoreIsItself(peer, init, e, k);
    }
    assert e.SendGetAddr? ==> OnlyItself(peer, es, |init|);
  }

  lemma {:induction false} RunAwaits(peer: Addr, s: State, es: seq<Event>)
    ensures Run(peer, s, es).outstanding <==> Awaiting(peer, s, es)
  {
    if es != [] {
      var init, e := es[..|es| - 1], es[|es| - 1];
      RunAwaits(peer, s, init);
      assert es == init + [e];
      OneMoreAwaits(peer, s, init, e);
    }
  }

  /** A message counts as the reply to our getaddr, and passes whole, exactly if one was awaited and the message
      is not the peer's own address, alone. */
  lemma RepliesAreRecognised(peer: Addr, s: State, es: seq<Event>)
    requires es != [] && es[|es| - 1].Gossip?
    ensures var e, f := es[|es| - 1], LastEffect(peer, s, es);
            && (f.solicited <==> Awaiting(peer, s, es[..|es| - 1]) && !(e.received == 1 && e.parsed == [peer]))
            && (f.solicited ==> f.passed == e.parsed) && f.passed <= e.parsed
  {
    RunAwaits(peer, s, es[..|es| - 1]);
  }

  /** What the events from the k-th on leave of a burst and what has come back since, `sums` being what had been
      taken before each event. */
  function Left(es: seq<Event>, sums: seq<real>, n: nat, k: nat, at: real, rate: real, burst: real): real
    requires k < n <= |es| && |sums| == |es| + 1
  {
    burst + (at - es[k].at) * rate - (sums[n] - sums[k])
  }

  /** The level is the least that any of these leaves. */
  ghost predicate Least(level: real, es: seq<Event>, sums: seq<real>, n: nat, at: real, rate: real, burst: real) {
    && n <= |es| && |sums| == |es| + 1 && level <= burst
    && (forall k: nat | k < n :: level <= Left(es, sums, n, k, at, rate, burst))
    && (level == burst || exists k: nat | k < n :: level == Left(es, sums, n, k, at, rate, burst))
  }

  lemma LeftLater(es: seq<Event>, sums: seq<real>, n: nat, k: nat, at: real, later: real, rate: real, burst: real)
    requires k < n <= |es| && |sums| == |es| + 1
    ensures Left(es, sums, n, k, later, rate, burst) == Left(es, sums, n, k, at, rate, burst) + (later - at) * rate
  {
    assert (later - es[k].at) * rate == (later - at) * rate + (at - es[k].at) * rate;
  }

  lemma LeastLater(level: real, es: seq<Event>, sums: seq<real>, n: nat, at: real, later: real, rate: real, burst: real)
    requires Least(level, es, sums, n, at, rate, burst) && at <= later && 0.0 <= rate
    ensures Least(Capped(level + (later - at) * rate, burst), es, sums, n, later, rate, burst)
  {
    assert 0.0 <= (later - at) * rate;
    forall k: nat | k < n
      ensures Left(es, sums, n, k, later, rate, burst) == Left(es, sums, n, k, at, rate, burst) + (later - at) * rate
    {
      LeftLater(es, sums, n, k, at, later, rate, burst);
    }
  }

  lemma LeastDrawn(level: real, es: seq<Event>, sums: seq<real>, n: nat, more: real, rate: real, burst: real)
    requires n < |es| && Least(level, es, sums, n, es[n].at, rate, burst) && 0.0 <= more
    requires sums[n + 1] == sums[n] + more
    ensures Least(level - more, es, sums, n + 1, es[n].at, rate, burst)
  {
    var at := es[n].at;
    var after := n + 1;
    forall k: nat | k < after ensures level - more <= Left(es, sums, after, k, at, rate, burst) {
      LeftDrawn(es, sums, n, k, more, rate, burst);
    }
    if level == burst {
      LeftDrawn(es, sums, n, n, more, rate, burst);
    } else {
      var k: nat :| k < n && level == Left(es, sums, n, k, at, rate, burst);
      LeftDrawn(es, sums, n, k, more, rate, burst);
    }
  }

  lemma LeftDrawn(es: seq<Event>, sums: seq<real>, n: nat, k: nat, more: real, rate: real, burst: real)
    requires k <= n < |es| && |sums| == |es| + 1 && sums[n + 1] == sums[n] + more
    ensures Left(es, sums, n + 1, k, es[n].at, rate, burst)
            == if k == n then burst - more else Left(es, sums, n, k, es[n].at, rate, burst) - more
  {}

  lemma Nothing(d: real, rate: real)
    requires d == 0.0
    ensures d * rate == 0.0
  {}

  lemma RefilledNow(level: real, at: real, rate: real, burst: real)
    requires level <= burst
    ensures Refill(Bucket(level, at), at, rate, burst).level == level
  {
    var b := Bucket(level, at);
    Nothing(at - b.updated, rate);
    assert Refill(b, at, rate, burst).level == Capped(level + (at - b.updated) * rate, burst);
  }

  /** One event on: the level refilled up to it. */
  lemma LeastNext(b: Bucket, es: seq<Event>, sums: seq<real>, n: nat, at: real, later: real, rate: real, burst: real)
    requires b.updated <= at <= later && 0.0 <= rate
    requires Least(Refill(b, at, rate, burst).level, es, sums, n, at, rate, burst)
    ensures Least(Refill(b, later, rate, burst).level, es, sums, n, later, rate, burst)
  {
    RefillInSteps(b, at, later, rate, burst);
    LeastLater(Refill(b, at, rate, burst).level, es, sums, n, at, later, rate, burst);
  }

  /** And what is left after it. */
  lemma LeastAfter(b: Bucket, b': Bucket, level: real, es: seq<Event>, sums: seq<real>, n: nat, more: real,
                   rate: real, burst: real)
    requires n < |es| && 0.0 <= more && level == Refill(b, es[n].at, rate, burst).level
    requires Least(level, es, sums, n, es[n].at, rate, burst) && sums[n + 1] == sums[n] + more
    requires (b' == b && more == 0.0) || b' == Bucket(level - more, es[n].at)
    ensures Least(Refill(b', es[n].at, rate, burst).level, es, sums, n + 1, es[n].at, rate, burst)
  {
    RefilledNow(level - more, es[n].at, rate, burst);
    LeastDrawn(level, es, sums, n, more, rate, burst);
  }

  /** So much may be taken exactly if it fits in what each of them leaves. */
  lemma LeastFits(level: real, es: seq<Event>, sums: seq<real>, n: nat, at: real, rate: real, burst: real, more: real)
    requires Least(level, es, sums, n, at, rate, burst)
    ensures more <= level
            <==> more <= burst && forall k | 0 <= k < n :: sums[n] - sums[k] + more <= burst + (at - es[k].at) * rate
  {
    assert forall k: nat | k < n ::
      Left(es, sums, n, k, at, rate, burst) == burst + (at - es[k].at) * rate - (sums[n] - sums[k]);
  }

  /** What had been answered, and passed on unasked for, before each event of a run. */
  ghost predicate Tallied(peer: Addr, s: State, es: seq<Event>, answers: seq<real>, addrs: seq<real>) {
    && |answers| == |es| + 1 && |addrs| == |es| + 1
    && forall i | 0 <= i <= |es| ::
         answers[i] == Answered(peer, s, es[..i]) as real && addrs[i] == Unsolicited(peer, s, es[..i]) as real
  }

  /** How a session starts: with full buckets. */
  ghost predicate Fresh(s: State, from: real) {
    s.headers == Bucket(4.0, from) && s.addrs == Bucket(1000.0, from)
  }

  function Before(from: real, es: seq<Event>, n: nat): real
    requires n <= |es|
  {
    if n == 0 then from else es[n - 1].at
  }

  ghost predicate LevelsAreLeast(s: State, es: seq<Event>, answers: seq<real>, addrs: seq<real>, n: nat, at: real) {
    && Possible(s, at)
    && Least(Refill(s.headers, at, 1.0 / 30.0, 4.0).level, es, answers, n, at, 1.0 / 30.0, 4.0)
    && Least(Refill(s.addrs, at, 0.1, 1000.0).level, es, addrs, n, at, 0.1, 1000.0)
  }

  lemma Reaches(peer: Addr, s: State, es: seq<Event>, answers: seq<real>, addrs: seq<real>, n: nat, at: real)
    requires n < |es| && LevelsAreLeast(s, es, answers, addrs, n, at) && at <= es[n].at
    ensures LevelsAreLeast(s, es, answers, addrs, n, es[n].at)
  {
    LeastNext(s.headers, es, answers, n, at, es[n].at, 1.0 / 30.0, 4.0);
    LeastNext(s.addrs, es, addrs, n, at, es[n].at, 0.1, 1000.0);
  }

  /** The next totals count what the event brought about. */
  ghost predicate Counted(answers: seq<real>, addrs: seq<real>, n: nat, f: Effect) {
    && n + 1 < |answers| && n + 1 < |addrs|
    && answers[n + 1] == answers[n] + (if f.answered then 1.0 else 0.0)
    && addrs[n + 1] == addrs[n] + (if f.solicited then 0.0 else |f.passed| as real)
  }

  lemma StepIsLeast(peer: Addr, s: State, es: seq<Event>, answers: seq<real>, addrs: seq<real>, n: nat)
    requires n < |es| && LevelsAreLeast(s, es, answers, addrs, n, es[n].at)
    requires Counted(answers, addrs, n, Step(peer, s, es[n]).1)
    ensures LevelsAreLeast(Step(peer, s, es[n]).0, es, answers, addrs, n + 1, es[n].at)
  {
    var (s', f) := Step(peer, s, es[n]);
    StepIsPossible(peer, s, es[n]);
    LeastAfter(s.headers, s'.headers, Refill(s.headers, es[n].at, 1.0 / 30.0, 4.0).level, es, answers, n,
               if f.answered then 1.0 else 0.0, 1.0 / 30.0, 4.0);
    LeastAfter(s.addrs, s'.addrs, Refill(s.addrs, es[n].at, 0.1, 1000.0).level, es, addrs, n,
               if f.solicited then 0.0 else |f.passed| as real, 0.1, 1000.0);
  }

  lemma TalliedOneMore(peer: Addr, s: State, es: seq<Event>, answers: seq<real>, addrs: seq<real>, n: nat, u: State)
    requires Tallied(peer, s, es, answers, addrs) && n < |es| && u == Run(peer, s, es[..n])
    ensures Run(peer, s, es[..n + 1]) == Step(peer, u, es[n]).0
    ensures Counted(answers, addrs, n, Step(peer, u, es[n]).1)
  {
    var es' := es[..n + 1];
    assert es'[..n] == es[..n] && es'[n] == es[n];
    assert LastEffect(peer, s, es') == Step(peer, u, es[n]).1;
  }

  lemma StartIsLeast(s: State, from: real, es: seq<Event>, answers: seq<real>, addrs: seq<real>)
    requires Fresh(s, from) && |answers| == |es| + 1 && |addrs| == |es| + 1
    ensures LevelsAreLeast(s, es, answers, addrs, 0, from)
  {
    RefilledNow(4.0, from, 1.0 / 30.0, 4.0);
    RefilledNow(1000.0, from, 0.1, 1000.0);
  }

  lemma OneMoreIsLeast(peer: Addr, s: State, from: real, es: seq<Event>, answers: seq<real>, addrs: seq<real>, n: nat,
                       u: State, u': State)
    requires Tallied(peer, s, es, answers, addrs) && n < |es| && Before(from, es, n) <= es[n].at
    requires u == Run(peer, s, es[..n]) && u' == Run(peer, s, es[..n + 1])
    requires LevelsAreLeast(u, es, answers, addrs, n, Before(from, es, n))
    ensures LevelsAreLeast(u', es, answers, addrs, n + 1, es[n].at)
  {
    Reaches(peer, u, es, answers, addrs, n, Before(from, es, n));
    TalliedOneMore(peer, s, es, answers, addrs, n, u);
    StepIsLeast(peer, u, es, answers, addrs, n);
  }

  lemma {:induction false} RunIsLeast(peer: Addr, s: State, from: real, es: seq<Event>, answers: seq<real>,
                                      addrs: seq<real>, n: nat)
    requires Fresh(s, from) && InOrder(from, es) && Tallied(peer, s, es, answers, addrs) && n <= |es|
    ensures LevelsAreLeast(Run(peer, s, es[..n]), es, answers, addrs, n, Before(from, es, n))
  {
    if n == 0 {
      StartIsLeast(s, from, es, answers, addrs);
    } else {
      RunIsLeast(peer, s, from, es, answers, addrs, n - 1);
      OneMoreIsLeast(peer, s, from, es, answers, addrs, n - 1, Run(peer, s, es[..n - 1]), Run(peer, s, es[..n]));
    }
  }

  lemma LeastAtLast(peer: Addr, s: State, from: real, es: seq<Event>, answers: seq<real>, addrs: seq<real>)
    requires Fresh(s, from) && InOrder(from, es) && Tallied(peer, s, es, answers, addrs) && es != []
    ensures LevelsAreLeast(Run(peer, s, es[..|es| - 1]), es, answers, addrs, |es| - 1, es[|es| - 1].at)
  {
    var n := |es| - 1;
    RunIsLeast(peer, s, from, es, answers, addrs, n);
    Reaches(peer, Run(peer, s, es[..n]), es, answers, addrs, n, Before(from, es, n));
  }

  /** In a session from its start, a getheaders is answered exactly if, over every span that begins with an event
      and ends with it, that keeps within four answers and one for every thirty seconds. */
  lemma AnsweredIfItFits(peer: Addr, s: State, from: real, es: seq<Event>, answers: seq<real>, addrs: seq<real>)
    requires Fresh(s, from) && InOrder(from, es) && Tallied(peer, s, es, answers, addrs)
    requires es != [] && es[|es| - 1].GetHeaders?
    ensures var n := |es| - 1;
            LastEffect(peer, s, es).answered
            <==> forall k | 0 <= k < n :: answers[n] - answers[k] + 1.0 <= 4.0 + (es[n].at - es[k].at) * (1.0 / 30.0)
  {
    var n := |es| - 1;
    LeastAtLast(peer, s, from, es, answers, addrs);
    LeastFits(Refill(Run(peer, s, es[..n]).headers, es[n].at, 1.0 / 30.0, 4.0).level, es, answers, n, es[n].at,
              1.0 / 30.0, 4.0, 1.0);
  }

  /** How much of a message nobody asked for is passed on, in terms of what there is to take from. */
  lemma PassedInFull(peer: Addr, s: State, e: Event, m: nat, level: real)
    requires e.Gossip? && !Step(peer, s, e).1.solicited && m <= |e.parsed|
    requires level == Refill(s.addrs, e.at, 0.1, 1000.0).level
    ensures m <= |Step(peer, s, e).1.passed| <==> m == 0 || m as real <= level
  {}

  /** And of addresses nobody asked for as many are passed on as keep within a thousand and one for every ten
      seconds: any number up to the message's is no more than are passed on exactly if it fits. */
  lemma PassedIfTheyFit(peer: Addr, s: State, from: real, es: seq<Event>, answers: seq<real>, addrs: seq<real>, m: nat)
    requires Fresh(s, from) && InOrder(from, es) && Tallied(peer, s, es, answers, addrs)
    requires es != [] && es[|es| - 1].Gossip? && !LastEffect(peer, s, es).solicited && m <= |es[|es| - 1].parsed|
    ensures var n := |es| - 1;
            m <= |LastEffect(peer, s, es).passed|
            <==> m == 0 || (m <= 1000 && forall k | 0 <= k < n ::
                              addrs[n] - addrs[k] + m as real <= 1000.0 + (es[n].at - es[k].at) * 0.1)
  {
    var n := |es| - 1;
    var u := Run(peer, s, es[..n]);
    LeastAtLast(peer, s, from, es, answers, addrs);
    var level := Refill(u.addrs, es[n].at, 0.1, 1000.0).level;
    PassedInFull(peer, u, es[n], m, level);
    LeastFits(level, es, addrs, n, es[n].at, 0.1, 1000.0, m as real);
  }
}
