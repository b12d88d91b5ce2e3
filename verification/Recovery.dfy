/**
 The throttle on asking peers for a block the tree does not have.
 */
module Recovery {
  import opened Basics
  import opened Forest

  /** Seconds between two rounds of requests for the same block. */
  const INTERVAL := 10.0
  /** Requests in one round. */
  const PEERS := 3

  datatype Pending = Pending(started: real, requests: nat)
  type Requests = map<Hash, Pending>

  predicate Current(p: Pending, now: real) { now - p.started < INTERVAL }

  /** The requests still out at `now`. */
  function Live(m: Requests, now: real): Requests {
    map k | k in m && Current(m[k], now) :: m[k]
  }

  /** Whether to ask for `missing` now, and the requests out afterwards. */
  function Due(m: Requests, missing: Hash, proven: bool, now: real): (Requests, bool) {
    var live := Live(m, now);
    if missing !in live then (live[missing := Pending(now, 1)], true)
    else if proven && live[missing].requests < PEERS
    then (live[missing := live[missing].(requests := live[missing].requests + 1)], true)
    else (live, false)
  }

  // ---- Runs --------------------------------------------------------------------------------

  /** What can happen to the requests out: a connection asks whether to request a block, or the block
      turns up. */
  datatype Event =
    | Ask(block: Hash, at: real, proven: bool)
    | Placed(block: Hash, at: real)

  function Step(m: Requests, e: Event): (Requests, bool) {
    match e
    case Ask(k, now, proven) => Due(m, k, proven, now)
    case Placed(k, _) => (m - {k}, false)
  }

  function Run(m: Requests, es: seq<Event>): Requests {
    if es == [] then m else Step(Run(m, es[..|es| - 1]), es[|es| - 1]).0
  }

  /** Whether the last event of a run led to a request. */
  function Granted(m: Requests, es: seq<Event>): bool
    requires es != []
  {
    Step(Run(m, es[..|es| - 1]), es[|es| - 1]).1
  }

  function About(es: seq<Event>, k: Hash): seq<Event> {
    if es == [] then []
    else About(es[..|es| - 1], k) + if es[|es| - 1].block == k then [es[|es| - 1]] else []
  }

  ghost predicate InOrder(from: real, es: seq<Event>) {
    && (forall i | 0 <= i < |es| :: from <= es[i].at)
    && (forall i, j | 0 <= i < j < |es| :: es[i].at <= es[j].at)
  }

  function Until(from: real, es: seq<Event>): real { if es == [] then from else es[|es| - 1].at }

  /** `m` and `m'` say the same about `k` from `now` on. */
  ghost predicate Same(m: Requests, m': Requests, k: Hash, now: real) {
    forall t: real {:trigger Live(m, t)} | now <= t ::
      (k in Live(m, t) <==> k in Live(m', t)) && (k in Live(m, t) ==> m[k] == m'[k])
  }

  lemma OtherBlocks(m: Requests, e: Event, k: Hash)
    requires e.block != k
    ensures Same(Step(m, e).0, m, k, e.at)
  {}

  lemma SameBlock(m: Requests, m': Requests, e: Event, from: real)
    requires Same(m, m', e.block, from) && from <= e.at
    ensures Same(Step(m, e).0, Step(m', e).0, e.block, e.at) && Step(m, e).1 == Step(m', e).1
  {
    assert e.block in Live(m, e.at) <==> e.block in Live(m', e.at);
  }

  lemma SameFrom(m: Requests, m': Requests, m'': Requests, k: Hash, from: real, now: real)
    requires Same(m, m', k, now) && Same(m', m'', k, from) && from <= now
    ensures Same(m, m'', k, now)
  {
    forall t: real | now <= t
      ensures (k in Live(m, t) <==> k in Live(m'', t)) && (k in Live(m, t) ==> m[k] == m''[k])
    {
      assert k in Live(m', t) <==> k in Live(m, t);
    }
  }

  /** What is asked about other blocks changes nothing for this one. */
  lemma {:induction false} OthersDoNotMatter(m: Requests, from: real, es: seq<Event>, k: Hash)
    requires InOrder(from, es)
    ensures Same(Run(m, es), Run(m, About(es, k)), k, Until(from, es))
    ensures es != [] && es[|es| - 1].block == k ==> About(es, k) != [] && Granted(m, es) == Granted(m, About(es, k))
  {
    if es != [] {
      var init, e := es[..|es| - 1], es[|es| - 1];
      OthersDoNotMatter(m, from, init, k);
      if e.block == k {
        assert About(es, k)[..|About(es, k)| - 1] == About(init, k);
        SameBlock(Run(m, init), Run(m, About(init, k)), e, Until(from, init));
      } else {
        assert About(es, k) == About(init, k);
        OtherBlocks(Run(m, init), e, k);
        SameFrom(Run(m, es), Run(m, init), Run(m, About(es, k)), k, Until(from, init), e.at);
      }
    }
  }

  /** Requests sent for `k` over a run. */
  function Grants(m: Requests, es: seq<Event>, k: Hash): nat {
    if es == [] then 0
    else Grants(m, es[..|es| - 1], k) + if es[|es| - 1].block == k && Granted(m, es) then 1 else 0
  }

  lemma {:induction false} GrantsAbout(m: Requests, from: real, es: seq<Event>, k: Hash)
    requires InOrder(from, es)
    ensures Grants(m, es, k) == Grants(m, About(es, k), k)
  {
    if es != [] {
      var init, e := es[..|es| - 1], es[|es| - 1];
      GrantsAbout(m, from, init, k);
      OthersDoNotMatter(m, from, es, k);
      if e.block == k {
        assert About(es, k)[..|About(es, k)| - 1] == About(init, k);
      } else {
        assert About(es, k) == About(init, k);
      }
    }
  }

  /** Rounds of requests begun over a run: those that found none out for the block. */
  function Rounds(m: Requests, es: seq<Event>): nat {
    if es == [] then 0
    else
      var e := es[|es| - 1];
      Rounds(m, es[..|es| - 1]) + if e.block in Live(Run(m, es[..|es| - 1]), e.at) then 0 else 1
  }

  ghost predicate OnlyAsks(es: seq<Event>, k: Hash) {
    forall i | 0 <= i < |es| :: es[i].Ask? && es[i].block == k
  }

  /** Requests left over from a round already under way. */
  function Carried(m: Requests, k: Hash): nat {
    if k in m && m[k].requests <= PEERS then PEERS - m[k].requests else 0
  }

  ghost predicate Started(m: Requests, from: real) {
    forall k | k in m :: 1 <= m[k].requests <= PEERS && m[k].started <= from
  }

  /** So it is at any point of a run. */
  lemma {:induction false} RunKeepsStarted(m: Requests, from: real, es: seq<Event>)
    requires Started(m, from) && InOrder(from, es)
    ensures Started(Run(m, es), Until(from, es))
  {
    if es != [] { RunKeepsStarted(m, from, es[..|es| - 1]); }
  }

  lemma {:induction false} RoundsOfOneBlock(m: Requests, from: real, es: seq<Event>, k: Hash)
    requires Started(m, from) && InOrder(from, es) && OnlyAsks(es, k) && es != []
    ensures k in Run(m, es) && 1 <= Run(m, es)[k].requests <= PEERS && Run(m, es)[k].started <= es[|es| - 1].at
    ensures Rounds(m, es) == 0 ==>
              && k in m && Run(m, es)[k].started == m[k].started
              && Grants(m, es, k) == Run(m, es)[k].requests - m[k].requests
    ensures Rounds(m, es) > 0 ==>
              && INTERVAL * (Rounds(m, es) - 1) as real <= Run(m, es)[k].started - from
              && Grants(m, es, k) <= Carried(m, k) + PEERS * (Rounds(m, es) - 1) + Run(m, es)[k].requests
  {
    var init, e := es[..|es| - 1], es[|es| - 1];
    if init != [] { RoundsOfOneBlock(m, from, init, k); }
  }

  lemma {:induction false} AboutKeepsOrder(from: real, es: seq<Event>, k: Hash)
    requires InOrder(from, es) && forall i | 0 <= i < |es| && es[i].block == k :: es[i].Ask?
    ensures InOrder(from, About(es, k)) && OnlyAsks(About(es, k), k)
    ensures forall i | 0 <= i < |About(es, k)| :: About(es, k)[i].at <= Until(from, es)
  {
    if es != [] {
      AboutKeepsOrder(from, es[..|es| - 1], k);
    }
  }

  /** Requests for one block that stays absent come at most three to a round, and rounds begin at least
      ten seconds apart, whatever else is asked for meanwhile: over any span of any run. */
  lemma RequestsAreThrottled(m: Requests, from: real, es: seq<Event>, k: Hash)
    requires Started(m, from) && InOrder(from, es) && forall i | 0 <= i < |es| && es[i].block == k :: es[i].Ask?
    ensures var rounds := Rounds(m, About(es, k));
            && Grants(m, es, k) <= PEERS * rounds + Carried(m, k)
            && (rounds > 0 ==> INTERVAL * (rounds - 1) as real <= Until(from, es) - from)
  {
    GrantsAbout(m, from, es, k);
    AboutKeepsOrder(from, es, k);
    if About(es, k) != [] { RoundsOfOneBlock(m, from, About(es, k), k); }
  }

  // ---- Who is granted one ------------------------------------------------------------------

  /** Requests for `k` by peers proven to have it, after the first event. */
  function Proven(es: seq<Event>, k: Hash): nat {
    if |es| <= 1 then 0
    else
      var e := es[|es| - 1];
      Proven(es[..|es| - 1], k) + if e.block == k && e.Ask? && e.proven then 1 else 0
  }

  /** A round: a first request for `k`, none being out any more, and what happens in the ten seconds after it,
      with the block not turning up. */
  ghost predicate Round(m: Requests, es: seq<Event>, k: Hash) {
    && es != [] && es[0].Ask? && es[0].block == k && (k in m ==> es[0].at - m[k].started >= 10.0)
    && InOrder(es[0].at, es) && forall i | 0 <= i < |es| ::
                                  es[i].at < es[0].at + 10.0 && (es[i].block == k ==> es[i].Ask?)
  }

  lemma {:induction false} RoundSoFar(m: Requests, es: seq<Event>, k: Hash)
    requires Round(m, es, k)
    ensures k in Run(m, es) && Run(m, es)[k] == Pending(es[0].at, Min(3, 1 + Proven(es, k)))
    ensures Grants(m, es, k) == Min(3, 1 + Proven(es, k))
  {
    var init, e := es[..|es| - 1], es[|es| - 1];
    if init != [] {
      RoundSoFar(m, init, k);
    } else {
      assert Run(m, init) == m && Grants(m, init, k) == 0;
    }
  }

  /** In a round the first request is granted whether the peer is proven or not; after it only proven ones are,
      two of them. Once it is ten seconds old the next is granted, whoever asks. */
  lemma GrantedInRound(m: Requests, es: seq<Event>, k: Hash, e: Event)
    requires Round(m, es, k) && e.Ask? && e.block == k && es[|es| - 1].at <= e.at
    ensures Granted(m, es[..1])
    ensures Granted(m, es + [e]) <==> e.at >= es[0].at + 10.0 || (e.proven && Proven(es, k) < 2)
  {
    RoundSoFar(m, es, k);
    assert (es + [e])[..|es|] == es;
    assert es[..1][..0] == [];
  }

  lemma {:induction false} StaysPlaced(m: Requests, es: seq<Event>, k: Hash)
    requires k !in m && forall e | e in es :: e.block != k
    ensures k !in Run(m, es)
  {
    if es != [] {
      assert forall e | e in es[..|es| - 1] :: e in es;
      StaysPlaced(m, es[..|es| - 1], k);
      assert es[|es| - 1] in es;
    }
  }

  /** Once the block has turned up, a request for it, should it be absent again, is granted to whoever asks. */
  lemma GrantedOncePlaced(m: Requests, at: real, es: seq<Event>, k: Hash, e: Event)
    requires (forall x | x in es :: x.block != k) && e.Ask? && e.block == k
    ensures Step(Run(Step(m, Placed(k, at)).0, es), e).1
  {
    StaysPlaced(Step(m, Placed(k, at)).0, es, k);
  }
}
