/**
 Two trees talking, as values: what a peer answers to our locator, and what our tree makes of the answer.
 */
module SyncSpec {
  import opened Basics
  import opened Forest
  import opened TreeSpec
  import opened TreeRuns
  import opened Locator

  /** `locator` names the best chain at the heights a locator names. */
  ghost predicate LocatorOf(best: seq<Hash>, locator: seq<Hash>) {
    && 0 < |best| && |locator| == |Heights(|best| - 1, 1)|
    && forall i | 0 <= i < |locator| ::
         Heights(|best| - 1, 1)[i] < |best| && locator[i] == best[Heights(|best| - 1, 1)[i]]
  }

  /** What is looked up of a locator. */
  function Looked(locator: seq<Hash>): seq<Hash> {
    if |locator| <= MAX_LOCATOR then locator else locator[..MAX_LOCATOR]
  }

  /** An answer starts above the first of the newest 101 hashes that is on the best chain, or above genesis if none
      of those is, whatever older ones follow. */
  lemma OnlyTheNewestCount(hs: Headers, best: seq<Hash>, locator: seq<Hash>, i: nat, n: nat)
    requires forall m | 0 <= m < |best| :: best[m] in hs && hs[best[m]].height == m
    ensures (forall j | 0 <= j < |locator| && j < 101 :: locator[j] !in best) ==>
              StartAfter(hs, best, Looked(locator)) == 1
    ensures (i < |locator| && i < 101 && n < |best| && locator[i] == best[n]
             && forall j | 0 <= j < i :: locator[j] !in best) ==> StartAfter(hs, best, Looked(locator)) == n + 1
  {
    if forall j | 0 <= j < |locator| && j < 101 :: locator[j] !in best { StartUnmatched(hs, best, Looked(locator)); }
    if i < |locator| && i < 101 && n < |best| && locator[i] == best[n]
       && (forall j | 0 <= j < i :: locator[j] !in best)
    {
      StartMatched(hs, best, Looked(locator), i, n);
    }
  }

  /** A block of one best chain that is on another is on it at the same height. */
  lemma OnBoth(r: Rules, a: Headers, b: Headers, tipA: Hash, tipB: Hash, k: Hash)
    requires r.CollisionFree() && Rooted(r, a) && Rooted(r, b) && tipA in a && tipB in b
    requires k in Chain(r, a, tipA) && OnChain(b, Chain(r, b, tipB), k)
    ensures k in a && a[k].height == b[k].height < |Chain(r, a, tipA)| && Chain(r, a, tipA)[a[k].height] == k
  {
    SharedEntriesAgree(r, a, b, k);
  }

  /** The peer finds our locator: its answer starts after a block both best chains share. */
  lemma AnswerStartsOnOurChain(r: Rules, f: Holding, g: Holding, locator: seq<Hash>)
    requires r.CollisionFree() && Rooted(r, f.headers) && Rooted(r, g.headers) && f.tip in f.headers
    requires g.tip in g.headers
    requires f.headers[f.tip].height < 0x1_0000_0000 && LocatorOf(Chain(r, f.headers, f.tip), locator)
    ensures var theirs := Chain(r, g.headers, g.tip); var ours := Chain(r, f.headers, f.tip);
            var start := StartAfter(g.headers, theirs, Looked(locator));
            && Looked(locator) == locator && 0 < start <= |theirs|
            && start <= |ours| && theirs[start - 1] == ours[start - 1]
  {
    var theirs, ours := Chain(r, g.headers, g.tip), Chain(r, f.headers, f.tip);
    LocatorIsShort(f.headers[f.tip].height);
    var n := |locator|;
    assert locator[n - 1] == ours[0] == r.Root();
    var j := StartsNoLater(g.headers, theirs, locator, n - 1);
    assert locator[j] in ours;
    OnBoth(r, f.headers, g.headers, f.tip, g.tip, locator[j]);
  }

  ghost predicate NoneRefused(vs: seq<Verdict>) {
    forall v | v in vs :: !v.Refused?
  }

  lemma NoneRefusedMore(vs: seq<Verdict>, v: Verdict, vs': seq<Verdict>)
    requires NoneRefused(vs) && !v.Refused? && vs' == vs + [v]
    ensures NoneRefused(vs')
  {}

  lemma NextIsTaken(r: Rules, t: Tree, g: Headers, k: Hash)
    requires r.CollisionFree() && TreeInv(r, map[], t) && t.holding.reached.None? && Sound(r, g)
    requires k in g && k != r.Root() && g[k].header.prev in t.holding.headers
    ensures var h := g[k].header;
            && !Judge(r, map[], t, h).Refused?
            && Insert(r, map[], t, h).holding.reached.None? && k in Insert(r, map[], t, h).holding.headers
  {
    assert Linked(r, g, k) && Legal(r, g, k);
    LawfulIsShared(r, g, t.holding.headers, g[k].header);
    InsertFeeds(r, t, g[k].header);
  }

  lemma AnswerStep(r: Rules, u: Tree, g: Holding, start: nat, out: seq<Header>, n: nat)
    requires r.CollisionFree() && TreeInv(r, map[], u) && u.holding.reached.None? && Inv(r, map[], g)
    requires 0 < start && AnswerFrom(g.headers, Chain(r, g.headers, g.tip), start, 0, out) && n < |out|
    requires Chain(r, g.headers, g.tip)[start + n - 1] in u.holding.headers
    ensures !Judge(r, map[], u, out[n]).Refused? && Insert(r, map[], u, out[n]).holding.reached.None?
    ensures Chain(r, g.headers, g.tip)[start + n] in Insert(r, map[], u, out[n]).holding.headers
  {
    var k := Chain(r, g.headers, g.tip)[start + n];
    ChainStep(r, g.headers, g.tip, start + n - 1);
    assert Linked(r, g.headers, k) && Linked(r, g.headers, r.Root());
    NextIsTaken(r, u, g.headers, k);
  }

  /** Part-way down an answer: each header so far was taken or already held, and the last is held. */
  ghost predicate Taking(r: Rules, t: Tree, theirs: seq<Hash>, start: nat, out: seq<Header>, n: nat)
    requires TreeInv(r, map[], t) && n <= |out| && 0 < start && start + |out| <= |theirs|
  {
    && InsertAll(r, map[], t, out[..n]).holding.reached.None?
    && NoneRefused(Verdicts(r, map[], t, out[..n]))
    && theirs[start + n - 1] in InsertAll(r, map[], t, out[..n]).holding.headers
  }

  lemma TakingStep(r: Rules, t: Tree, s: seq<Header>, h: Header, s': seq<Header>, k: Hash)
    requires TreeInv(r, map[], t) && s' == s + [h] && NoneRefused(Verdicts(r, map[], t, s))
    requires !Judge(r, map[], InsertAll(r, map[], t, s), h).Refused?
    requires Insert(r, map[], InsertAll(r, map[], t, s), h).holding.reached.None?
    requires k in Insert(r, map[], InsertAll(r, map[], t, s), h).holding.headers
    ensures InsertAll(r, map[], t, s').holding.reached.None? && NoneRefused(Verdicts(r, map[], t, s'))
    ensures k in InsertAll(r, map[], t, s').holding.headers
  {
    InsertOneMore(r, map[], t, s, h, s');
    NoneRefusedMore(Verdicts(r, map[], t, s), Judge(r, map[], InsertAll(r, map[], t, s), h), Verdicts(r, map[], t, s'));
  }

  lemma TakingMore(r: Rules, t: Tree, g: Holding, start: nat, out: seq<Header>, n: nat)
    requires r.CollisionFree() && TreeInv(r, map[], t) && Inv(r, map[], g)
    requires 0 < start && AnswerFrom(g.headers, Chain(r, g.headers, g.tip), start, 0, out) && n < |out|
    requires Taking(r, t, Chain(r, g.headers, g.tip), start, out, n)
    ensures Taking(r, t, Chain(r, g.headers, g.tip), start, out, n + 1)
  {
    AnswerStep(r, InsertAll(r, map[], t, out[..n]), g, start, out, n);
    PrefixGrows(out, n);
    TakingStep(r, t, out[..n], out[n], out[..n + 1], Chain(r, g.headers, g.tip)[start + n]);
  }

  lemma TakingNothing(r: Rules, t: Tree, theirs: seq<Hash>, start: nat, out: seq<Header>)
    requires TreeInv(r, map[], t) && t.holding.reached.None? && 0 < start && start + |out| <= |theirs|
    requires theirs[start - 1] in t.holding.headers
    ensures Taking(r, t, theirs, start, out, 0)
  {
    assert out[..0] == [];
  }

  /** Every header of an answer that starts on a block we hold is accepted or already held. */
  lemma {:induction false} AnswerIsTaken(r: Rules, t: Tree, g: Holding, start: nat, out: seq<Header>, n: nat)
    requires r.CollisionFree() && TreeInv(r, map[], t) && t.holding.reached.None? && Inv(r, map[], g)
    requires 0 < start && AnswerFrom(g.headers, Chain(r, g.headers, g.tip), start, 0, out) && n <= |out|
    requires start <= |Chain(r, g.headers, g.tip)| && Chain(r, g.headers, g.tip)[start - 1] in t.holding.headers
    ensures Taking(r, t, Chain(r, g.headers, g.tip), start, out, n)
  {
    if n == 0 {
      TakingNothing(r, t, Chain(r, g.headers, g.tip), start, out);
    } else {
      AnswerIsTaken(r, t, g, start, out, n - 1);
      TakingMore(r, t, g, start, out, n - 1);
    }
  }

  /** An answer that was not cut at two thousand headers leaves us with at least the peer's work. */
  lemma AnswerCatchesUp(r: Rules, t: Tree, g: Holding, start: nat, out: seq<Header>)
    requires r.CollisionFree() && TreeInv(r, map[], t) && t.holding.reached.None? && Inv(r, map[], g)
    requires 0 < start <= |Chain(r, g.headers, g.tip)|
    requires AnswerFrom(g.headers, Chain(r, g.headers, g.tip), start, 0, out)
    requires Chain(r, g.headers, g.tip)[start - 1] in t.holding.headers
    requires |Chain(r, g.headers, g.tip)| - start <= MAX_HEADERS
    ensures var f' := InsertAll(r, map[], t, out).holding;
            g.headers[g.tip].work <= f'.headers[f'.tip].work
  {
    AnswerIsTaken(r, t, g, start, out, |out|);
    assert out[..|out|] == out;
    SharedEntriesAgree(r, InsertAll(r, map[], t, out).holding.headers, g.headers, g.tip);
  }

  // ---- The loop ----------------------------------------------------------------------------

  lemma {:induction false} CountGrows(r: Rules, t: Tree, s: seq<Header>)
    requires TreeInv(r, map[], t) && t.holding.reached.None?
    ensures |InsertAll(r, map[], t, s).holding.headers| == |t.holding.headers| + Count(Verdicts(r, map[], t, s))
  {
    if s != [] {
      var init := s[..|s| - 1];
      CountGrows(r, t, init);
      InsertAllFeeds(r, t, init);
      assert s == init + [s[|s| - 1]];
      InsertOneMore(r, map[], t, init, s[|s| - 1], s);
      CountOneMore(Verdicts(r, map[], t, init), Judge(r, map[], InsertAll(r, map[], t, init), s[|s| - 1]));
      InsertFeeds(r, InsertAll(r, map[], t, init), s[|s| - 1]);
    }
  }

  /** What feeding an answer changes: nothing goes, what comes is the peer's, and as much of it as
      was counted. */
  lemma AnswerAdds(r: Rules, t: Tree, g: Holding, start: nat, out: seq<Header>)
    requires TreeInv(r, map[], t) && t.holding.reached.None? && Inv(r, map[], g)
    requires AnswerFrom(g.headers, Chain(r, g.headers, g.tip), start, 0, out)
    ensures var hs, hs' := t.holding.headers, InsertAll(r, map[], t, out).holding.headers;
            && Sub(hs, hs') && (forall k | k in hs' && k !in hs :: k in g.headers)
            && |hs'| == |hs| + Count(Verdicts(r, map[], t, out))
  {
    var hs, hs' := t.holding.headers, InsertAll(r, map[], t, out).holding.headers;
    CountGrows(r, t, out);
    InsertAllFeeds(r, t, out);
    FeedDraws(r, hs, out, set h | h in out);
    forall k | k in hs' && k !in hs ensures k in g.headers {
      assert Linked(r, hs', k);
      var i :| 0 <= i < |out| && out[i] == hs'[k].header;
      assert Linked(r, g.headers, Chain(r, g.headers, g.tip)[start + i]);
    }
  }

  /** Each round that learns something leaves less of the peer's tree to learn. */
  lemma LessToLearn(theirs: set<Hash>, ours: set<Hash>, ours': set<Hash>)
    requires ours <= ours' && |ours| < |ours'| && ours' - ours <= theirs
    ensures |theirs - ours'| < |theirs - ours|
  {
    assert theirs - ours == (theirs - ours') + (ours' - ours);
    assert ours' == ours + (ours' - ours);
  }

  lemma {:induction false} FeedOnlyAdds(r: Rules, hs: Headers, s: seq<Header>, n: nat)
    requires Sound(r, hs) && n <= |s|
    ensures Sub(Feed(r, hs, s[..n]), Feed(r, hs, s))
  {
    if n == |s| {
      assert s[..n] == s;
    } else {
      FeedOnlyAdds(r, hs, s[..|s| - 1], n);
      assert s[..|s| - 1][..n] == s[..n];
    }
  }

  lemma PrefixStaysHeld(r: Rules, t: Tree, out: seq<Header>, n: nat, k: Hash)
    requires TreeInv(r, map[], t) && t.holding.reached.None? && n <= |out|
    requires k in InsertAll(r, map[], t, out[..n]).holding.headers
    ensures k in InsertAll(r, map[], t, out).holding.headers
  {
    InsertAllFeeds(r, t, out);
    InsertAllFeeds(r, t, out[..n]);
    FeedOnlyAdds(r, t.holding.headers, out, n);
  }

  lemma TakenStaysHeld(r: Rules, t: Tree, theirs: seq<Hash>, start: nat, out: seq<Header>, i: nat)
    requires TreeInv(r, map[], t) && t.holding.reached.None? && 0 < start && start + |out| <= |theirs| && i < |out|
    requires Taking(r, t, theirs, start, out, i + 1)
    ensures theirs[start + i] in InsertAll(r, map[], t, out).holding.headers
  {
    PrefixStaysHeld(r, t, out, i + 1, theirs[start + i]);
  }

  lemma AnswerNames(r: Rules, g: Headers, tip: Hash, start: nat, out: seq<Header>, i: nat)
    requires Rooted(r, g) && tip in g && AnswerFrom(g, Chain(r, g, tip), start, 0, out) && i < |out|
    ensures r.hash(out[i]) == Chain(r, g, tip)[start + i]
  {
    assert Linked(r, g, Chain(r, g, tip)[start + i]);
  }

  lemma AnswerHeldAt(r: Rules, t: Tree, g: Holding, start: nat, out: seq<Header>, i: nat)
    requires r.CollisionFree() && TreeInv(r, map[], t) && t.holding.reached.None? && Inv(r, map[], g)
    requires 0 < start <= |Chain(r, g.headers, g.tip)|
    requires AnswerFrom(g.headers, Chain(r, g.headers, g.tip), start, 0, out) && i < |out|
    requires Chain(r, g.headers, g.tip)[start - 1] in t.holding.headers
    ensures r.hash(out[i]) in InsertAll(r, map[], t, out).holding.headers
  {
    AnswerIsTaken(r, t, g, start, out, i + 1);
    TakenStaysHeld(r, t, Chain(r, g.headers, g.tip), start, out, i);
    AnswerNames(r, g.headers, g.tip, start, out, i);
  }

  lemma AnswerIsHeld(r: Rules, t: Tree, g: Holding, start: nat, out: seq<Header>)
    requires r.CollisionFree() && TreeInv(r, map[], t) && t.holding.reached.None? && Inv(r, map[], g)
    requires 0 < start <= |Chain(r, g.headers, g.tip)|
    requires AnswerFrom(g.headers, Chain(r, g.headers, g.tip), start, 0, out)
    requires Chain(r, g.headers, g.tip)[start - 1] in t.holding.headers
    ensures forall h | h in out :: r.hash(h) in InsertAll(r, map[], t, out).holding.headers
  {
    forall h | h in out ensures r.hash(h) in InsertAll(r, map[], t, out).holding.headers {
      var i :| 0 <= i < |out| && out[i] == h;
      AnswerHeldAt(r, t, g, start, out, i);
    }
  }

  /** What an answer does for us: no header of it is refused, nothing we held goes, what comes is the
      peer's and as much of it as was counted, and unless it was cut short we have at least the peer's work. */
  ghost predicate Learned(r: Rules, t: Tree, g: Holding, start: nat, out: seq<Header>)
    requires TreeInv(r, map[], t) && Inv(r, map[], g)
  {
    var f' := InsertAll(r, map[], t, out).holding;
    && f'.reached.None?
    && NoneRefused(Verdicts(r, map[], t, out))
    && (forall h | h in out :: r.hash(h) in f'.headers)
    && Sub(t.holding.headers, f'.headers)
    && (forall k | k in f'.headers && k !in t.holding.headers :: k in g.headers)
    && |f'.headers| == |t.holding.headers| + Count(Verdicts(r, map[], t, out))
    && (|Chain(r, g.headers, g.tip)| - start <= MAX_HEADERS ==> g.headers[g.tip].work <= f'.headers[f'.tip].work)
  }

  lemma AnswerIsLearned(r: Rules, t: Tree, g: Holding, start: nat, out: seq<Header>)
    requires r.CollisionFree() && TreeInv(r, map[], t) && t.holding.reached.None? && Inv(r, map[], g)
    requires 0 < start <= |Chain(r, g.headers, g.tip)|
    requires AnswerFrom(g.headers, Chain(r, g.headers, g.tip), start, 0, out)
    requires Chain(r, g.headers, g.tip)[start - 1] in t.holding.headers
    ensures Learned(r, t, g, start, out)
  {
    AnswerIsTaken(r, t, g, start, out, |out|);
    assert out[..|out|] == out;
    AnswerIsHeld(r, t, g, start, out);
    AnswerAdds(r, t, g, start, out);
    if |Chain(r, g.headers, g.tip)| - start <= MAX_HEADERS { AnswerCatchesUp(r, t, g, start, out); }
  }

  /** A fork below our tip costs the peer less than its own depth again: the blocks the two best
      chains share beyond the match are fewer than those that differ. */
  lemma MatchIsNearTheFork(r: Rules, f: Holding, g: Holding, locator: seq<Hash>, fork: nat)
    requires r.CollisionFree() && Rooted(r, f.headers) && Rooted(r, g.headers) && f.tip in f.headers
    requires g.tip in g.headers
    requires f.headers[f.tip].height < 0x1_0000_0000 && LocatorOf(Chain(r, f.headers, f.tip), locator)
    requires fork < f.headers[f.tip].height && fork <= g.headers[g.tip].height
    requires Chain(r, g.headers, g.tip)[fork] == Chain(r, f.headers, f.tip)[fork]
    requires forall i | fork < i < |Chain(r, f.headers, f.tip)| ::
               Chain(r, f.headers, f.tip)[i] !in Chain(r, g.headers, g.tip)
    ensures var matched := StartAfter(g.headers, Chain(r, g.headers, g.tip), Looked(locator)) - 1;
            0 <= fork - matched < f.headers[f.tip].height - fork
  {
    var ours, theirs := Chain(r, f.headers, f.tip), Chain(r, g.headers, g.tip);
    LocatorIsShort(f.headers[f.tip].height);
    var i := LocatorReaches(f.headers[f.tip].height, fork);
    var hts := Heights(f.headers[f.tip].height, 1);
    ChainPrefix(r, f.headers, f.tip, fork);
    ChainPrefix(r, g.headers, g.tip, fork);
    SharedEntriesAgree(r, f.headers, g.headers, ours[fork]);
    assert ours[..fork + 1][hts[i]] == theirs[..fork + 1][hts[i]];
    FirstMatch(g.headers, theirs, locator, i);
  }

  lemma {:induction false} FirstMatch(hs: Headers, best: seq<Hash>, locator: seq<Hash>, i: nat)
    requires i < |locator| && OnChain(hs, best, locator[i]) && forall j | 0 <= j < i :: locator[j] !in best
    ensures StartAfter(hs, best, locator) == hs[locator[i]].height + 1
  {
    if i > 0 {
      assert locator[0] !in best;
      FirstMatch(hs, best, locator[1..], i - 1);
    }
  }
}
