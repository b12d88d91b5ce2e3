/**
 How far back a fork may lie for asking again and again to get past it, where every block has the same work.
 */
module SyncReach {
  import opened Basics
  import opened Forest
  import opened TreeSpec
  import opened TreeRuns
  import opened Locator
  import opened SyncSpec

  ghost predicate Shares(ours: seq<Hash>, theirs: seq<Hash>, height: nat) {
    height < |ours| && height < |theirs| && ours[height] == theirs[height]
  }

  /** Our best chain is shorter than one answer, or shares a block within 1128 of its tip with the peer's. */
  ghost predicate Near(ours: seq<Hash>, theirs: seq<Hash>) {
    |ours| <= MAX_HEADERS || exists h :: Shares(ours, theirs, h) && |ours| - 1 - h <= 1128
  }

  // ---- Where the answer ends ---------------------------------------------------------------------

  /** What two best chains share at one height they share at every lower one. */
  lemma SharesBelow(r: Rules, a: Headers, b: Headers, tipA: Hash, tipB: Hash, h: nat, i: nat)
    requires r.CollisionFree() && Rooted(r, a) && Rooted(r, b) && tipA in a && tipB in b
    requires Shares(Chain(r, a, tipA), Chain(r, b, tipB), h) && i <= h
    ensures Shares(Chain(r, a, tipA), Chain(r, b, tipB), i)
  {
    var ours, theirs := Chain(r, a, tipA), Chain(r, b, tipB);
    ChainPrefix(r, a, tipA, h);
    ChainPrefix(r, b, tipB, h);
    SharedEntriesAgree(r, a, b, ours[h]);
    assert ours[..h + 1][i] == theirs[..h + 1][i];
  }

  ghost predicate Talking(r: Rules, f: Holding, g: Holding, locator: seq<Hash>) {
    && r.CollisionFree() && Rooted(r, f.headers) && Rooted(r, g.headers) && f.tip in f.headers && g.tip in g.headers
    && f.headers[f.tip].height < 0x1_0000_0000 && LocatorOf(Chain(r, f.headers, f.tip), locator)
  }

  lemma NearIsReached(r: Rules, f: Holding, g: Holding, locator: seq<Hash>, h: nat)
    requires Talking(r, f, g, locator)
    requires Shares(Chain(r, f.headers, f.tip), Chain(r, g.headers, g.tip), h) && f.headers[f.tip].height - h <= 1128
    ensures StartAfter(g.headers, Chain(r, g.headers, g.tip), locator) + 1127 >= f.headers[f.tip].height
  {
    var ours, theirs, top := Chain(r, f.headers, f.tip), Chain(r, g.headers, g.tip), f.headers[f.tip].height;
    var i := NamedWithin(top, 1, top, h);
    var hts := Heights(top, 1);
    SharesBelow(r, f.headers, g.headers, f.tip, g.tip, h, hts[i]);
    var j := StartsNoLater(g.headers, theirs, locator, i);
    HeightsDescend(top, 1);
    SharedEntriesAgree(r, f.headers, g.headers, locator[j]);
  }

  lemma FarIsNotReached(r: Rules, f: Holding, g: Holding, locator: seq<Hash>, start: nat)
    requires Talking(r, f, g, locator)
    requires start == StartAfter(g.headers, Chain(r, g.headers, g.tip), locator)
    requires !Near(Chain(r, f.headers, f.tip), Chain(r, g.headers, g.tip))
    ensures start - 1 + MAX_HEADERS <= f.headers[f.tip].height
  {
    var ours, theirs, top := Chain(r, f.headers, f.tip), Chain(r, g.headers, g.tip), f.headers[f.tip].height;
    AnswerStartsOnOurChain(r, f, g, locator);
    assert Shares(ours, theirs, start - 1);
    StartIsNamed(r, f, g, locator, start);
    var i :| 0 <= i < |locator| && Heights(top, 1)[i] == start - 1;
    LocatorGap(top, 1, top, i);
  }

  lemma StartIsNamed(r: Rules, f: Holding, g: Holding, locator: seq<Hash>, start: nat)
    requires Talking(r, f, g, locator)
    requires start == StartAfter(g.headers, Chain(r, g.headers, g.tip), locator)
    ensures exists i :: 0 <= i < |locator| && Heights(f.headers[f.tip].height, 1)[i] == start - 1
  {
    var ours, theirs := Chain(r, f.headers, f.tip), Chain(r, g.headers, g.tip);
    var n := |locator|;
    assert locator[n - 1] == ours[0] == r.Root();
    var j := StartsNoLater(g.headers, theirs, locator, n - 1);
    SharedEntriesAgree(r, f.headers, g.headers, locator[j]);
    assert Heights(f.headers[f.tip].height, 1)[j] == start - 1;
  }

  /** An answer can reach above our tip exactly if the fork is near. */
  lemma ReachedIfNear(r: Rules, f: Holding, g: Holding, locator: seq<Hash>, start: nat)
    requires Talking(r, f, g, locator)
    requires start == StartAfter(g.headers, Chain(r, g.headers, g.tip), Looked(locator))
    ensures Near(Chain(r, f.headers, f.tip), Chain(r, g.headers, g.tip))
            <==> start - 1 + MAX_HEADERS > f.headers[f.tip].height
  {
    var ours, theirs := Chain(r, f.headers, f.tip), Chain(r, g.headers, g.tip);
    AnswerStartsOnOurChain(r, f, g, locator);
    if !Near(ours, theirs) {
      FarIsNotReached(r, f, g, locator, start);
    } else if |ours| > MAX_HEADERS {
      var h :| Shares(ours, theirs, h) && |ours| - 1 - h <= 1128;
      NearIsReached(r, f, g, locator, h);
    }
  }

  // ---- What the answer changes -------------------------------------------------------------------

  /** The tip moves only to something heavier. */
  lemma TipOrHeavier(r: Rules, t: Tree, h: Header, f: Holding, f': Holding)
    requires TreeInv(r, map[], t) && t.holding.reached.None? && f == t.holding && f' == Insert(r, map[], t, h).holding
    ensures Sub(f.headers, f'.headers)
    ensures f'.tip == f.tip || (f'.tip in f'.headers && f'.headers[f'.tip].work > f.headers[f.tip].work)
  {}

  ghost predicate NoHeavier(hs: Headers, work: nat) { forall k | k in hs :: hs[k].work <= work }

  lemma {:induction false} TipStays(r: Rules, t: Tree, s: seq<Header>)
    requires TreeInv(r, map[], t) && t.holding.reached.None?
    requires NoHeavier(InsertAll(r, map[], t, s).holding.headers, t.holding.headers[t.holding.tip].work)
    ensures InsertAll(r, map[], t, s).holding.tip == t.holding.tip
    ensures Sub(t.holding.headers, InsertAll(r, map[], t, s).holding.headers)
  {
    if s != [] {
      var init, h := s[..|s| - 1], s[|s| - 1];
      InsertAllFeeds(r, t, init);
      TipOrHeavier(r, InsertAll(r, map[], t, init), h, InsertAll(r, map[], t, init).holding,
                   InsertAll(r, map[], t, s).holding);
      TipStays(r, t, init);
    }
  }

  /** What the answer brings is on the peer's best chain, and no higher than it goes. */
  lemma AnswerBrings(r: Rules, t: Tree, g: Holding, start: nat, out: seq<Header>, k: Hash)
    requires r.CollisionFree() && TreeInv(r, map[], t) && t.holding.reached.None? && Inv(r, map[], g)
    requires AnswerFrom(g.headers, Chain(r, g.headers, g.tip), start, 0, out)
    requires k in InsertAll(r, map[], t, out).holding.headers && k !in t.holding.headers
    ensures k in Chain(r, g.headers, g.tip) && k in g.headers && g.headers[k].height < start + |out|
  {
    var hs' := InsertAll(r, map[], t, out).holding.headers;
    InsertAllFeeds(r, t, out);
    FeedDraws(r, t.holding.headers, out, set h | h in out);
    assert Linked(r, hs', k);
    var i :| 0 <= i < |out| && out[i] == hs'[k].header;
    AnswerNames(r, g.headers, g.tip, start, out, i);
  }

  /** After an answer the tip is the one before, or on the peer's best chain. */
  lemma TipMoves(r: Rules, t: Tree, g: Holding, start: nat, out: seq<Header>)
    requires r.CollisionFree() && TreeInv(r, map[], t) && t.holding.reached.None? && Inv(r, map[], g)
    requires AnswerFrom(g.headers, Chain(r, g.headers, g.tip), start, 0, out)
    requires Learned(r, t, g, start, out)
    ensures var tip' := InsertAll(r, map[], t, out).holding.tip;
            tip' == t.holding.tip || tip' in Chain(r, g.headers, g.tip)
  {
    var f, f' := t.holding, InsertAll(r, map[], t, out).holding;
    if f'.tip in f.headers {
      assert NoHeavier(f'.headers, f.headers[f.tip].work);
      TipStays(r, t, out);
    } else {
      AnswerBrings(r, t, g, start, out, f'.tip);
    }
  }

  // ---- Blocked ---------------------------------------------------------------------------------------

  ghost predicate Both(r: Rules, f: Holding, g: Holding) {
    r.CollisionFree() && Rooted(r, f.headers) && Rooted(r, g.headers) && f.tip in f.headers && g.tip in g.headers
  }

  /** Where the peer's answer to our locator starts. */
  ghost function StartFor(r: Rules, f: Holding, g: Holding): nat
    requires Both(r, f, g)
  {
    StartAfter(g.headers, Chain(r, g.headers, g.tip), LocatorFor(Chain(r, f.headers, f.tip)))
  }

  /** An answer from there is cut short, and its last header weighs no more than our tip. */
  ghost predicate CutAt(r: Rules, f: Holding, g: Holding, start: nat)
    requires Both(r, f, g)
  {
    var theirs := Chain(r, g.headers, g.tip);
    start + MAX_HEADERS < |theirs| && g.headers[theirs[start + MAX_HEADERS - 1]].work <= f.headers[f.tip].work
  }

  /** The peer's answer to our locator would be such a one. */
  ghost predicate Blocked(r: Rules, f: Holding, g: Holding)
    requires Both(r, f, g)
  {
    CutAt(r, f, g, StartFor(r, f, g))
  }

  lemma WorkAlong(r: Rules, hs: Headers, tip: Hash, i: nat, j: nat)
    requires Rooted(r, hs) && tip in hs && i <= j <= hs[tip].height
    ensures hs[Chain(r, hs, tip)[i]].work <= hs[Chain(r, hs, tip)[j]].work
    ensures i < j ==> hs[Chain(r, hs, tip)[i]].work < hs[Chain(r, hs, tip)[j]].work
  {
    ChainPrefix(r, hs, tip, j);
    if i < j {
      ChainWork(r, hs, Chain(r, hs, tip)[j], i);
      assert Chain(r, hs, tip)[..j + 1][i] == Chain(r, hs, tip)[i];
    }
  }

  /** Of a chain up to a height, the last block is the heaviest. */
  lemma LastIsHeaviest(r: Rules, g: Holding, k: Hash, last: nat)
    requires Rooted(r, g.headers) && g.tip in g.headers && last < |Chain(r, g.headers, g.tip)|
    requires k in Chain(r, g.headers, g.tip) && k in g.headers && g.headers[k].height <= last
    ensures g.headers[k].work <= g.headers[Chain(r, g.headers, g.tip)[last]].work
  {
    WorkAlong(r, g.headers, g.tip, g.headers[k].height, last);
  }

  lemma NoHeavierThere(r: Rules, hs: Headers, g: Holding, k: Hash, last: nat, work: nat)
    requires r.CollisionFree() && Rooted(r, hs) && Rooted(r, g.headers) && g.tip in g.headers && k in hs
    requires k in Chain(r, g.headers, g.tip) && k in g.headers && g.headers[k].height <= last
    requires last < |Chain(r, g.headers, g.tip)| && g.headers[Chain(r, g.headers, g.tip)[last]].work <= work
    ensures hs[k].work <= work
  {
    SharedEntriesAgree(r, hs, g.headers, k);
    LastIsHeaviest(r, g, k, last);
  }

  lemma BringsNoHeavier(r: Rules, t: Tree, g: Holding, start: nat, out: seq<Header>, k: Hash, hs: Headers, work: nat)
    requires r.CollisionFree() && TreeInv(r, map[], t) && t.holding.reached.None? && Inv(r, map[], g)
    requires AnswerFrom(g.headers, Chain(r, g.headers, g.tip), start, 0, out)
    requires start + MAX_HEADERS < |Chain(r, g.headers, g.tip)|
    requires g.headers[Chain(r, g.headers, g.tip)[start + MAX_HEADERS - 1]].work <= work
    requires hs == InsertAll(r, map[], t, out).holding.headers && k in hs && k !in t.holding.headers
    ensures hs[k].work <= work
  {
    AnswerBrings(r, t, g, start, out, k);
    NoHeavierThere(r, hs, g, k, start + MAX_HEADERS - 1, work);
  }

  /** Such an answer leaves our tip where it is. */
  lemma CutLeavesTheTip(r: Rules, t: Tree, g: Holding, start: nat, out: seq<Header>)
    requires r.CollisionFree() && TreeInv(r, map[], t) && t.holding.reached.None? && Inv(r, map[], g)
    requires AnswerFrom(g.headers, Chain(r, g.headers, g.tip), start, 0, out) && CutAt(r, t.holding, g, start)
    ensures InsertAll(r, map[], t, out).holding.tip == t.holding.tip
  {
    var f, hs' := t.holding, InsertAll(r, map[], t, out).holding.headers;
    InsertAllFeeds(r, t, out);
    FeedDraws(r, f.headers, out, set h | h in out);
    forall k | k in hs' ensures hs'[k].work <= f.headers[f.tip].work {
      if k !in f.headers { BringsNoHeavier(r, t, g, start, out, k, hs', f.headers[f.tip].work); }
    }
    TipStays(r, t, out);
  }

  lemma SameSize(a: Headers, b: Headers)
    requires Sub(a, b) && |a| == |b|
    ensures a == b
  {
    assert a.Keys <= b.Keys;
    SubsetSize(a.Keys, b.Keys);
  }

  /** A full answer that is not such a one ends with a block heavier than our tip was. */
  lemma LastIsHeavier(r: Rules, f: Holding, f': Holding, g: Holding, start: nat, out: seq<Header>)
    requires Both(r, f, g) && Inv(r, map[], f') && !CutAt(r, f, g, start)
    requires AnswerFrom(g.headers, Chain(r, g.headers, g.tip), start, 0, out)
    requires |Chain(r, g.headers, g.tip)| - start > MAX_HEADERS && forall h | h in out :: r.hash(h) in f'.headers
    ensures f'.headers[f'.tip].work > f.headers[f.tip].work
  {
    AnswerNames(r, g.headers, g.tip, start, out, |out| - 1);
    SharedEntriesAgree(r, f'.headers, g.headers, r.hash(out[|out| - 1]));
  }

  /** Any other answer brings the peer's work, or something new and our tip onto the peer's best chain. */
  lemma OtherwiseItMoves(r: Rules, t: Tree, g: Holding, start: nat, out: seq<Header>)
    requires r.CollisionFree() && TreeInv(r, map[], t) && t.holding.reached.None? && Inv(r, map[], g)
    requires AnswerFrom(g.headers, Chain(r, g.headers, g.tip), start, 0, out) && Learned(r, t, g, start, out)
    requires !CutAt(r, t.holding, g, start)
    ensures var f' := InsertAll(r, map[], t, out).holding;
            || g.headers[g.tip].work <= f'.headers[f'.tip].work
            || (f'.tip in Chain(r, g.headers, g.tip) && Count(Verdicts(r, map[], t, out)) > 0)
  {
    var f, f' := t.holding, InsertAll(r, map[], t, out).holding;
    if |Chain(r, g.headers, g.tip)| - start > MAX_HEADERS {
      LastIsHeavier(r, f, f', g, start, out);
      TipMoves(r, t, g, start, out);
      if Count(Verdicts(r, map[], t, out)) == 0 { SameSize(f.headers, f'.headers); }
    }
  }

  /** On the peer's best chain the match is our own tip, and what the answer ends with is heavier. */
  lemma OnTheirsIsOpen(r: Rules, f: Holding, g: Holding)
    requires Both(r, f, g) && f.tip in Chain(r, g.headers, g.tip)
    ensures !Blocked(r, f, g)
  {
    var theirs := Chain(r, g.headers, g.tip);
    SharedEntriesAgree(r, f.headers, g.headers, f.tip);
    var height := g.headers[f.tip].height;
    assert OnChain(g.headers, theirs, f.tip);
    assert StartFor(r, f, g) == height + 1;
    if height + 1 + MAX_HEADERS < |theirs| { WorkAlong(r, g.headers, g.tip, height, height + MAX_HEADERS); }
  }

  lemma SameTipSameBlock(r: Rules, f: Holding, f': Holding, g: Holding)
    requires Both(r, f, g) && Both(r, f', g) && Sub(f.headers, f'.headers) && f'.tip == f.tip
    ensures Blocked(r, f', g) <==> Blocked(r, f, g)
  {
    ChainAgrees(r, f.headers, f'.headers, f.tip);
  }

  // ---- Equal work ------------------------------------------------------------------------------------

  /** Every block held has the work of the genesis block. */
  ghost predicate Even(r: Rules, hs: Headers) { forall k | k in hs :: r.work(hs[k].header) == r.work(r.genesis) }

  lemma {:induction false} WorkIsHeight(r: Rules, hs: Headers, k: Hash)
    requires Even(r, hs) && Rooted(r, hs) && k in hs
    ensures hs[k].work == (hs[k].height + 1) * r.work(r.genesis)
    decreases hs[k].height
  {
    assert Linked(r, hs, k);
    if k != r.Root() {
      WorkIsHeight(r, hs, hs[k].header.prev);
      Distributes(hs[k].height, r.work(r.genesis));
    }
  }

  lemma Distributes(n: nat, w: nat)
    ensures n * w + w == (n + 1) * w
  {}

  lemma Monotone(m: nat, n: nat, w: nat)
    requires w > 0
    ensures m < n <==> m * w < n * w
  {
    if m < n { assert (m + 1) * w <= n * w; } else { assert n * w <= m * w; }
  }

  /** Then the higher of two blocks is the heavier, in whichever trees they are. */
  lemma HigherIsHeavier(r: Rules, a: Headers, b: Headers, k: Hash, j: Hash)
    requires Even(r, a) && Even(r, b) && Rooted(r, a) && Rooted(r, b) && k in a && j in b
    ensures a[k].height < b[j].height <==> a[k].work < b[j].work
  {
    WorkIsHeight(r, a, k);
    WorkIsHeight(r, b, j);
    Monotone(a[k].height + 1, b[j].height + 1, r.work(r.genesis));
  }

  /** And a heavier peer's answer is blocked exactly if the fork is far. */
  lemma BlockedIfFar(r: Rules, f: Holding, g: Holding)
    requires Both(r, f, g) && f.headers[f.tip].height < 0x1_0000_0000 && Even(r, f.headers) && Even(r, g.headers)
    requires f.headers[f.tip].work < g.headers[g.tip].work
    ensures Blocked(r, f, g) <==> !Near(Chain(r, f.headers, f.tip), Chain(r, g.headers, g.tip))
  {
    var ours, theirs, start := Chain(r, f.headers, f.tip), Chain(r, g.headers, g.tip), StartFor(r, f, g);
    HeightsDescend(|ours| - 1, 1);
    var locator := LocatorFor(ours);
    assert LocatorOf(ours, locator);
    AnswerStartsOnOurChain(r, f, g, locator);
    ReachedIfNear(r, f, g, locator, start);
    HigherIsHeavier(r, f.headers, g.headers, f.tip, g.tip);
    if start + MAX_HEADERS < |theirs| {
      HigherIsHeavier(r, f.headers, g.headers, f.tip, theirs[start + MAX_HEADERS - 1]);
    }
  }
}
