/**
 Two trees talking: one exchange, and where asking again for as long as something new comes back ends.
 */
module HeaderSync {
  import opened Basics
  import opened Forest
  import opened TreeSpec
  import opened TreeRuns
  import opened Locator
  import opened SyncSpec
  import opened SyncReach
  import opened HeaderTrees

  ghost predicate Pair(ours: HeaderTree, peer: HeaderTree)
    reads ours, peer
  {
    && ours != peer && ours.Valid() && peer.Valid() && ours.rules == peer.rules
    && ours.checkpoints == peer.checkpoints == map[] && ours.reached.None?
  }

  ghost predicate NearFork(ours: HeaderTree, peer: HeaderTree)
    reads ours, peer
  {
    Near(ours.bestChain, peer.bestChain)
  }

  /** The peer's answer to our locator would be cut short, and end with a block no heavier than our tip. */
  ghost predicate IsBlocked(ours: HeaderTree, peer: HeaderTree)
    reads ours, peer
    requires Pair(ours, peer)
  {
    Blocked(ours.rules, ours.Held(), peer.Held())
  }

  lemma LocatorIsFor(best: seq<Hash>, locator: seq<Hash>)
    requires LocatorOf(best, locator)
    ensures locator == LocatorFor(best)
  {
    HeightsDescend(|best| - 1, 1);
  }

  /** Our locator and the peer's answer. */
  method Fetch(ours: HeaderTree, peer: HeaderTree) returns (answer: seq<Header>, ghost locator: seq<Hash>)
    requires Pair(ours, peer) && ours.tipHeight < 0x1_0000_0000
    ensures LocatorOf(ours.bestChain, locator)
    ensures AnswerFrom(peer.headers, peer.bestChain,
                       StartAfter(peer.headers, peer.bestChain, Looked(locator)), 0, answer)
  {
    var l := ours.BuildLocator();
    answer := peer.GetHeadersFromLocator(Looked(l), 0);
    locator := l;
  }

  /** It is empty or starts on a child of our best chain; it can reach above our tip exactly if the fork is
      near. */
  method Ask(ours: HeaderTree, peer: HeaderTree) returns (answer: seq<Header>, ghost start: nat)
    requires Pair(ours, peer) && ours.tipHeight < 0x1_0000_0000
    ensures start == StartFor(ours.rules, ours.Held(), peer.Held())
    ensures 0 < start <= |peer.bestChain| && start <= |ours.bestChain|
    ensures peer.bestChain[start - 1] == ours.bestChain[start - 1]
    ensures AnswerFrom(peer.headers, peer.bestChain, start, 0, answer)
    ensures answer != [] ==> answer[0].prev == ours.bestChain[start - 1]
    ensures NearFork(ours, peer) <==> start - 1 + MAX_HEADERS > ours.tipHeight
  {
    ghost var locator;
    answer, locator := Fetch(ours, peer);
    start := StartFor(ours.rules, ours.Held(), peer.Held());
    AskedFor(ours.rules, ours.Held(), peer.Held(), locator, start, answer);
  }

  lemma AskedFor(r: Rules, f: Holding, g: Holding, locator: seq<Hash>, start: nat, answer: seq<Header>)
    requires Talking(r, f, g, locator) && start == StartFor(r, f, g)
    requires AnswerFrom(g.headers, Chain(r, g.headers, g.tip),
                        StartAfter(g.headers, Chain(r, g.headers, g.tip), Looked(locator)), 0, answer)
    ensures var ours, theirs := Chain(r, f.headers, f.tip), Chain(r, g.headers, g.tip);
            && 0 < start <= |theirs| && start <= |ours| && theirs[start - 1] == ours[start - 1]
            && AnswerFrom(g.headers, theirs, start, 0, answer)
            && (answer != [] ==> answer[0].prev == ours[start - 1])
            && (Near(ours, theirs) <==> start - 1 + MAX_HEADERS > f.headers[f.tip].height)
  {
    AnswerStartsOnOurChain(r, f, g, locator);
    LocatorIsFor(Chain(r, f.headers, f.tip), locator);
    ReachedIfNear(r, f, g, locator, start);
    if answer != [] { ChainStep(r, g.headers, g.tip, start - 1); }
  }

  /** One exchange: our locator, the peer's answer, and what our tree makes of it. */
  method Exchange(ours: HeaderTree, peer: HeaderTree) returns (answer: seq<Header>, accepted: nat, ghost start: nat)
    requires Pair(ours, peer) && ours.tipHeight < 0x1_0000_0000
    modifies ours
    ensures Pair(ours, peer) && start == StartFor(ours.rules, old(ours.Held()), peer.Held())
    ensures 0 < start <= |peer.bestChain| && start <= |old(ours.bestChain)|
    ensures AnswerFrom(peer.headers, peer.bestChain, start, 0, answer)
    ensures old(NearFork(ours, peer)) <==> start - 1 + MAX_HEADERS > old(ours.tipHeight)
    ensures old(Learned(ours.rules, ours.AsTree(), peer.Held(), start, answer))
    ensures ours.AsTree() == old(InsertAll(ours.rules, map[], ours.AsTree(), answer))
    ensures accepted == Count(old(Verdicts(ours.rules, map[], ours.AsTree(), answer)))
  {
    answer, start := Ask(ours, peer);
    AnswerIsLearned(ours.rules, ours.AsTree(), peer.Held(), start, answer);
    var err;
    accepted, err := ours.InsertBatch(answer);
  }

  /** Every height fits the 32 bits it is kept in. */
  ghost predicate Low(hs: Headers) {
    forall k | k in hs :: hs[k].height < 0x1_0000_0000
  }

  lemma StaysLow(r: Rules, hs: Headers, hs': Headers, g: Headers)
    requires r.CollisionFree() && Rooted(r, hs') && Rooted(r, g) && Sub(hs, hs') && Low(hs) && Low(g)
    requires forall k | k in hs' && k !in hs :: k in g
    ensures Low(hs')
  {
    forall k | k in hs' && k !in hs ensures hs'[k].height < 0x1_0000_0000 { SharedEntriesAgree(r, hs', g, k); }
  }

  /** The answer was cut at two thousand headers, and the last of them weighs no more than our tip. */
  ghost predicate CutBelow(r: Rules, f: Holding, g: Holding, start: nat, out: seq<Header>)
    requires Rooted(r, g.headers) && f.tip in f.headers && g.tip in g.headers
  {
    var theirs := Chain(r, g.headers, g.tip);
    && |out| == MAX_HEADERS && start + |out| < |theirs| && AnswerFrom(g.headers, theirs, start, 0, out)
    && g.headers[theirs[start + MAX_HEADERS - 1]].work <= f.headers[f.tip].work
  }

  lemma CutWeighs(r: Rules, f: Holding, g: Holding, start: nat, out: seq<Header>)
    requires r.CollisionFree() && Inv(r, map[], f) && Inv(r, map[], g)
    requires AnswerFrom(g.headers, Chain(r, g.headers, g.tip), start, 0, out)
    requires forall h | h in out :: r.hash(h) in f.headers
    ensures |Chain(r, g.headers, g.tip)| - start > MAX_HEADERS ==> CutBelow(r, f, g, start, out)
  {
    if |Chain(r, g.headers, g.tip)| - start > MAX_HEADERS {
      AnswerNames(r, g.headers, g.tip, start, out, |out| - 1);
      SharedEntriesAgree(r, f.headers, g.headers, r.hash(out[|out| - 1]));
    }
  }

  /** What one round comes to, of our tree `t` and then `f'`: it only adds, and what is the peer's; and it
      leaves us with the peer's work or cut short. */
  ghost predicate Gained(r: Rules, f: Holding, f': Holding, g: Holding, start: nat, out: seq<Header>)
    requires Rooted(r, g.headers) && f'.tip in f'.headers && g.tip in g.headers
  {
    && Sub(f.headers, f'.headers) && (forall k | k in f'.headers && k !in f.headers :: k in g.headers)
    && (forall h | h in out :: r.hash(h) in f'.headers)
    && (g.headers[g.tip].work <= f'.headers[f'.tip].work || CutBelow(r, f', g, start, out))
  }

  lemma ExchangeGains(r: Rules, t: Tree, f': Holding, g: Holding, start: nat, out: seq<Header>)
    requires r.CollisionFree() && TreeInv(r, map[], t) && Inv(r, map[], g)
    requires f' == InsertAll(r, map[], t, out).holding && Learned(r, t, g, start, out)
    requires AnswerFrom(g.headers, Chain(r, g.headers, g.tip), start, 0, out)
    ensures Gained(r, t.holding, f', g, start, out)
  {
    CutWeighs(r, f', g, start, out);
  }

  /** Blocked stays blocked, and on the same tip; otherwise a round brings the peer's work, or something new
      and the way open. */
  ghost predicate Proceeds(r: Rules, f: Holding, f': Holding, g: Holding, accepted: nat)
    requires Both(r, f, g) && Both(r, f', g)
  {
    && (Blocked(r, f, g) ==> Blocked(r, f', g) && f'.tip == f.tip)
    && (!Blocked(r, f, g) ==>
          || g.headers[g.tip].work <= f'.headers[f'.tip].work
          || (!Blocked(r, f', g) && accepted > 0))
  }

  lemma ExchangeProceeds(r: Rules, t: Tree, f': Holding, g: Holding, out: seq<Header>)
    requires r.CollisionFree() && TreeInv(r, map[], t) && t.holding.reached.None? && Inv(r, map[], g)
    requires f' == InsertAll(r, map[], t, out).holding && Learned(r, t, g, StartFor(r, t.holding, g), out)
    requires AnswerFrom(g.headers, Chain(r, g.headers, g.tip), StartFor(r, t.holding, g), 0, out)
    ensures Proceeds(r, t.holding, f', g, Count(Verdicts(r, map[], t, out)))
  {
    if Blocked(r, t.holding, g) {
      CutLeavesTheTip(r, t, g, StartFor(r, t.holding, g), out);
      SameTipSameBlock(r, t.holding, f', g);
    } else {
      OtherwiseItMoves(r, t, g, StartFor(r, t.holding, g), out);
      if f'.tip in Chain(r, g.headers, g.tip) { OnTheirsIsOpen(r, f', g); }
    }
  }

  /** One round of the loop. */
  method Round(ours: HeaderTree, peer: HeaderTree) returns (answer: seq<Header>, accepted: nat, ghost start: nat)
    requires Pair(ours, peer) && Low(ours.headers) && Low(peer.headers)
    modifies ours
    ensures Pair(ours, peer) && Gained(ours.rules, old(ours.Held()), ours.Held(), peer.Held(), start, answer)
    ensures |ours.headers| == |old(ours.headers)| + accepted && (answer == [] ==> accepted == 0)
    ensures Proceeds(ours.rules, old(ours.Held()), ours.Held(), peer.Held(), accepted)
  {
    ghost var t := ours.AsTree();
    answer, accepted, start := Exchange(ours, peer);
    ExchangeGains(ours.rules, t, ours.Held(), peer.Held(), start, answer);
    ExchangeProceeds(ours.rules, t, ours.Held(), peer.Held(), answer);
  }

  lemma GainedLess(f: Holding, f': Holding, g: Headers)
    requires Sub(f.headers, f'.headers) && (forall k | k in f'.headers && k !in f.headers :: k in g)
    ensures |f.headers| < |f'.headers| ==> |g.Keys - f'.headers.Keys| < |g.Keys - f.headers.Keys|
  {
    if |f.headers| < |f'.headers| {
      assert f.headers.Keys <= f'.headers.Keys;
      LessToLearn(g.Keys, f.headers.Keys, f'.headers.Keys);
    }
  }

  /** One more round of a run: what it keeps, and what it leaves to learn. */
  method NextRound(ours: HeaderTree, peer: HeaderTree) returns (answer: seq<Header>, accepted: nat, ghost start: nat)
    requires Pair(ours, peer) && Low(ours.headers) && Low(peer.headers)
    modifies ours
    ensures Pair(ours, peer) && Low(ours.headers)
    ensures Gained(ours.rules, old(ours.Held()), ours.Held(), peer.Held(), start, answer)
    ensures answer == [] ==> accepted == 0
    ensures accepted > 0 ==> |peer.headers.Keys - ours.headers.Keys| < |peer.headers.Keys - old(ours.headers).Keys|
    ensures old(IsBlocked(ours, peer)) ==> IsBlocked(ours, peer) && ours.tipWork == old(ours.tipWork)
    ensures !old(IsBlocked(ours, peer)) ==>
              peer.tipWork <= ours.tipWork || (!IsBlocked(ours, peer) && accepted > 0)
    ensures old(ours.tipWork) <= ours.tipWork
  {
    ghost var f := ours.Held();
    answer, accepted, start := Round(ours, peer);
    StaysLow(ours.rules, f.headers, ours.headers, peer.headers);
    GainedLess(f, ours.Held(), peer.headers);
  }

  /** Where asking has got to since our tree held `f0`, and was then `blocked` or not. */
  ghost predicate Asked(ours: HeaderTree, peer: HeaderTree, f0: Holding, blocked: bool)
    reads ours, peer
    requires f0.tip in f0.headers
  {
    && Pair(ours, peer) && Low(ours.headers) && Low(peer.headers)
    && Sub(f0.headers, ours.headers) && (forall k | k in ours.headers && k !in f0.headers :: k in peer.headers)
    && (blocked ==> IsBlocked(ours, peer) && ours.tipWork == f0.headers[f0.tip].work)
    && (!blocked ==> peer.tipWork <= ours.tipWork || !IsBlocked(ours, peer))
  }

  /** And what the last answer says if it brought nothing new. */
  ghost predicate Answered(ours: HeaderTree, peer: HeaderTree, blocked: bool, start: nat, answer: seq<Header>,
                           accepted: nat)
    reads ours, peer
    requires Pair(ours, peer)
  {
    && (forall h | h in answer :: ours.rules.hash(h) in ours.headers) && (answer == [] ==> accepted == 0)
    && (peer.tipWork <= ours.tipWork || CutBelow(ours.rules, ours.Held(), peer.Held(), start, answer))
    && (!blocked && accepted == 0 ==> peer.tipWork <= ours.tipWork)
  }

  method AskAgain(ours: HeaderTree, peer: HeaderTree, ghost f0: Holding, ghost blocked: bool)
    returns (answer: seq<Header>, accepted: nat, ghost start: nat)
    requires f0.tip in f0.headers && Asked(ours, peer, f0, blocked)
    modifies ours
    ensures Asked(ours, peer, f0, blocked) && Answered(ours, peer, blocked, start, answer, accepted)
    ensures accepted > 0 ==> |peer.headers.Keys - ours.headers.Keys| < |peer.headers.Keys - old(ours.headers).Keys|
  {
    answer, accepted, start := NextRound(ours, peer);
  }

  /** Asking again for as long as something new comes back. It ends with at least the peer's work, or with
      an answer of two thousand headers the last of which weighs no more than our tip. It catches up with a
      heavier peer exactly if it is not blocked from the start. */
  method Synchronise(ours: HeaderTree, peer: HeaderTree) returns (answer: seq<Header>, ghost start: nat)
    requires Pair(ours, peer) && Low(ours.headers) && Low(peer.headers)
    modifies ours
    ensures Pair(ours, peer) && Sub(old(ours.headers), ours.headers)
    ensures forall k | k in ours.headers && k !in old(ours.headers) :: k in peer.headers
    ensures forall h | h in answer :: ours.rules.hash(h) in ours.headers
    ensures peer.tipWork <= ours.tipWork || CutBelow(ours.rules, ours.Held(), peer.Held(), start, answer)
    ensures peer.tipWork > old(ours.tipWork) ==> (peer.tipWork <= ours.tipWork <==> !old(IsBlocked(ours, peer)))
  {
    ghost var f0, blocked := ours.Held(), IsBlocked(ours, peer);
    while true
      invariant Asked(ours, peer, f0, blocked)
      decreases |peer.headers.Keys - ours.headers.Keys|
    {
      var accepted;
      answer, accepted, start := AskAgain(ours, peer, f0, blocked);
      if answer == [] || accepted == 0 {
        break;
      }
    }
  }

  /** Where the blocks of both trees have equal work, that is exactly if the fork is near. */
  method SynchroniseEven(ours: HeaderTree, peer: HeaderTree) returns (answer: seq<Header>)
    requires Pair(ours, peer) && Low(ours.headers) && Low(peer.headers)
    requires Even(ours.rules, ours.headers) && Even(ours.rules, peer.headers)
    modifies ours
    ensures Pair(ours, peer)
    ensures peer.tipWork > old(ours.tipWork) ==> (peer.tipWork <= ours.tipWork <==> old(NearFork(ours, peer)))
  {
    if peer.tipWork > ours.tipWork { BlockedIfFar(ours.rules, ours.Held(), peer.Held()); }
    ghost var start;
    answer, start := Synchronise(ours, peer);
  }
}
