/**
 What holds of the header tree over whole runs: any number of headers, in any order.
 */
module TreeRuns {
  import opened Basics
  import opened Forest
  import opened TreeSpec

  ghost function InsertAll(r: Rules, cps: Checkpoints, t: Tree, s: seq<Header>): (t': Tree)
    requires TreeInv(r, cps, t)
    ensures TreeInv(r, cps, t')
  {
    if s == [] then t
    else
      var before := InsertAll(r, cps, t, s[..|s| - 1]);
      InsertKeepsInv(r, cps, before, s[|s| - 1]);
      Insert(r, cps, before, s[|s| - 1])
  }

  /** What the tree says of each header in turn. */
  ghost function Verdicts(r: Rules, cps: Checkpoints, t: Tree, s: seq<Header>): (vs: seq<Verdict>)
    requires TreeInv(r, cps, t)
    ensures |vs| == |s|
  {
    if s == [] then []
    else
      var before := s[..|s| - 1];
      Verdicts(r, cps, t, before) + [Judge(r, cps, InsertAll(r, cps, t, before), s[|s| - 1])]
  }

  // ---- The memory is inert -----------------------------------------------------------------

  lemma OneHeaderIgnoresMemory(r: Rules, cps: Checkpoints, t: Tree, u: Tree, h: Header)
    requires TreeInv(r, cps, t) && TreeInv(r, cps, u) && t.holding == u.holding
    ensures Insert(r, cps, t, h).holding == Insert(r, cps, u, h).holding
    ensures Judge(r, cps, t, h).Accepted? <==> Judge(r, cps, u, h).Accepted?
    ensures Judge(r, cps, t, h).Known? <==> Judge(r, cps, u, h).Known?
  {}

  /** What a tree remembers of past refusals never changes what it holds, only the reason it gives. */
  lemma {:induction false} MemoryIsInert(r: Rules, cps: Checkpoints, t: Tree, u: Tree, s: seq<Header>)
    requires TreeInv(r, cps, t) && TreeInv(r, cps, u) && t.holding == u.holding
    ensures InsertAll(r, cps, t, s).holding == InsertAll(r, cps, u, s).holding
    ensures forall i | 0 <= i < |s| ::
              && (Verdicts(r, cps, t, s)[i].Accepted? <==> Verdicts(r, cps, u, s)[i].Accepted?)
              && (Verdicts(r, cps, t, s)[i].Known? <==> Verdicts(r, cps, u, s)[i].Known?)
  {
    if s != [] {
      var init := s[..|s| - 1];
      MemoryIsInert(r, cps, t, u, init);
      OneHeaderIgnoresMemory(r, cps, InsertAll(r, cps, t, init), InsertAll(r, cps, u, init), s[|s| - 1]);
    }
  }

  // ---- A refused root ----------------------------------------------------------------------

  lemma HeldWithItsParent(r: Rules, hs: Headers, h: Header)
    requires r.CollisionFree() && Rooted(r, hs)
    ensures r.hash(h) in hs && h != r.genesis ==> h.prev in hs
  {
    if r.hash(h) in hs { assert Linked(r, hs, r.hash(h)); }
  }

  lemma ReasonIsAt(m: Memory, i: nat)
    requires Unrepeated(m) && i < |m|
    ensures ReasonFor(m, m[i].hash) == Some(m[i].reason)
  {
    assert IndexOf(m, m[i].hash) == i;
  }

  /** Remembering something else never forgets the last entry. */
  lemma RememberKeepsTheLast(m: Memory, k: Hash, reason: HeaderError)
    requires MemoryInv(m) && m != [] && reason.IsOtherChain()
    ensures ReasonFor(Remember(m, k, reason), m[|m| - 1].hash) == Some(m[|m| - 1].reason)
  {
    var n := Remember(m, k, reason);
    RememberKeepsMemory(m, k, reason);
    ReasonIsAt(n, if Remembers(m, k) then |n| - 1 else |n| - 2);
  }

  lemma InheritingKeepsTheParent(m: Memory, parent: Hash, k: Hash)
    requires MemoryInv(m) && Remembers(m, parent)
    ensures var reason := ReasonFor(m, parent).value;
            ReasonFor(Remember(Touch(m, parent), k, reason), parent) == Some(reason)
  {
    TouchKeepsMemory(m, parent);
    RememberKeepsTheLast(Touch(m, parent), k, ReasonFor(m, parent).value);
  }

  /** One child of a refused header. */
  lemma RefusedRootRefusesAChild(r: Rules, cps: Checkpoints, u: Tree, root: Hash, h: Header, reason: HeaderError)
    requires r.CollisionFree() && TreeInv(r, cps, u) && h.prev == root && h != r.genesis
    requires root !in u.holding.headers && Remembers(u.memory, root) && ReasonFor(u.memory, root) == Some(reason)
    ensures Judge(r, cps, u, h) == Refused(reason) && Insert(r, cps, u, h).holding == u.holding
    ensures Remembers(Insert(r, cps, u, h).memory, root) && ReasonFor(Insert(r, cps, u, h).memory, root) == Some(reason)
  {
    HeldWithItsParent(r, u.holding.headers, h);
    InheritingKeepsTheParent(u.memory, root, r.hash(h));
  }

  /** However many direct children of a refused header arrive, each is refused for its parent's
      reason and none of them is what makes the tree forget the parent. */
  lemma {:induction false} RefusedRootRefusesItsChildren(r: Rules, cps: Checkpoints, t: Tree, root: Hash,
                                                         s: seq<Header>)
    requires r.CollisionFree() && TreeInv(r, cps, t)
    requires root !in t.holding.headers && Remembers(t.memory, root)
    requires forall h | h in s :: h.prev == root && h != r.genesis
    ensures InsertAll(r, cps, t, s).holding == t.holding
    ensures ReasonFor(InsertAll(r, cps, t, s).memory, root) == ReasonFor(t.memory, root)
    ensures forall v | v in Verdicts(r, cps, t, s) :: v == Refused(ReasonFor(t.memory, root).value)
  {
    if s != [] {
      var init, h := s[..|s| - 1], s[|s| - 1];
      RefusedRootRefusesItsChildren(r, cps, t, root, init);
      var u := InsertAll(r, cps, t, init);
      RefusedRootRefusesAChild(r, cps, u, root, h, ReasonFor(t.memory, root).value);
    }
  }

  // ---- A reached checkpoint ----------------------------------------------------------------

  /** Once a checkpoint is reached, every height up to it holds exactly one header. */
  lemma OneHeaderPerHeight(r: Rules, cps: Checkpoints, f: Holding, height: nat)
    requires Inv(r, cps, f) && Passed(f.reached, height)
    ensures exists k :: k in f.headers && f.headers[k].height == height
                        && forall j | j in f.headers && f.headers[j].height == height :: j == k
  {
    var k := Chain(r, f.headers, cps[f.reached.value])[height];
    assert k in f.headers && f.headers[k].height == height;
  }

  ghost predicate SameUpTo(a: Headers, b: Headers, c: nat) {
    && (forall k | k in a && a[k].height <= c :: k in b && b[k] == a[k])
    && (forall k | k in b && b[k].height <= c :: k in a && a[k] == b[k])
  }

  lemma GrowLeavesBelow(r: Rules, cps: Checkpoints, f: Holding, h: Header, c: nat)
    requires Inv(r, cps, f) && Takes(r, cps, f, h) && Passed(f.reached, c)
    ensures SameUpTo(f.headers, Grow(r, cps, f, h).headers, c) && Passed(Grow(r, cps, f, h).reached, c)
  {
    var k := r.hash(h);
    var g := Place(r, f.headers, h);
    PlaceKeepsRooted(r, f.headers, h);
    GrowKeepsInv(r, cps, f, h);
    var f' := Grow(r, cps, f, h);
    if g[k].height in cps {
      forall j | j in f.headers && f.headers[j].height <= c ensures j in f'.headers {
        var i := f.headers[j].height;
        var c' := Chain(r, g, k);
        assert c'[i] in f.headers && c'[i] in c';
        assert j == Chain(r, f.headers, cps[f.reached.value])[i] == c'[i];
      }
    }
  }

  lemma InsertLeavesBelow(r: Rules, cps: Checkpoints, t: Tree, h: Header, c: nat)
    requires TreeInv(r, cps, t) && Passed(t.holding.reached, c)
    ensures SameUpTo(t.holding.headers, Insert(r, cps, t, h).holding.headers, c)
    ensures Passed(Insert(r, cps, t, h).holding.reached, c)
  {
    if Judge(r, cps, t, h).Accepted? { GrowLeavesBelow(r, cps, t.holding, h, c); }
  }

  lemma SameUpToChains(a: Headers, b: Headers, d: Headers, c: nat)
    requires SameUpTo(a, b, c) && SameUpTo(b, d, c)
    ensures SameUpTo(a, d, c)
  {}

  /** And it stays that way: nothing at or below a reached checkpoint is ever added or removed. */
  lemma {:induction false} CheckpointFreezes(r: Rules, cps: Checkpoints, t: Tree, s: seq<Header>, c: nat)
    requires TreeInv(r, cps, t) && Passed(t.holding.reached, c)
    ensures SameUpTo(t.holding.headers, InsertAll(r, cps, t, s).holding.headers, c)
    ensures Passed(InsertAll(r, cps, t, s).holding.reached, c)
  {
    if s != [] {
      var u := InsertAll(r, cps, t, s[..|s| - 1]);
      CheckpointFreezes(r, cps, t, s[..|s| - 1], c);
      InsertLeavesBelow(r, cps, u, s[|s| - 1], c);
      SameUpToChains(t.holding.headers, u.holding.headers, InsertAll(r, cps, t, s).holding.headers, c);
    }
  }

  /** Nothing a tree holds stands as high as a checkpoint it is about to reach. */
  lemma NothingAboveANewCheckpoint(r: Rules, cps: Checkpoints, f: Holding, h: Header)
    requires Inv(r, cps, f) && Takes(r, cps, f, h) && f.headers[h.prev].height + 1 in cps
    ensures forall j | j in f.headers :: f.headers[j].height <= f.headers[h.prev].height
  {
    var height := f.headers[h.prev].height + 1;
    assert height in cps && 0 < height && !Passed(f.reached, height);
  }

  /** The insert that reaches a checkpoint leaves that block and its ancestors and makes it the tip. */
  lemma ReachingACheckpoint(r: Rules, cps: Checkpoints, f: Holding, h: Header)
    requires Inv(r, cps, f) && Takes(r, cps, f, h) && f.headers[h.prev].height + 1 in cps
    ensures var k := r.hash(h); var f' := Grow(r, cps, f, h);
            && f'.tip == k && f'.reached == Some(f.headers[h.prev].height + 1)
            && f'.headers.Keys == (set j | j in Chain(r, f.headers, h.prev)) + {k}
            && forall j | j in f'.headers && j != k :: f'.headers[j] == f.headers[j]
  {
    PlaceKeepsRooted(r, f.headers, h);
    AncestryOfAChild(r, f.headers, h, Place(r, f.headers, h), Chain(r, f.headers, h.prev));
  }

  lemma AncestryOfAChild(r: Rules, hs: Headers, h: Header, g: Headers, c: seq<Hash>)
    requires Rooted(r, g) && h.prev in hs && r.hash(h) !in hs && g == Place(r, hs, h)
    requires (forall j | j in c :: j in hs) && Chain(r, g, r.hash(h)) == c + [r.hash(h)]
    ensures Ancestry(r, g, r.hash(h)).Keys == (set j | j in c) + {r.hash(h)}
    ensures forall j | j in Ancestry(r, g, r.hash(h)) && j != r.hash(h) :: Ancestry(r, g, r.hash(h))[j] == hs[j]
  {}

  // ---- Order -------------------------------------------------------------------------------

  ghost predicate Ready(r: Rules, hs: Headers, h: Header)
    requires Rooted(r, hs)
  {
    r.hash(h) !in hs && h.prev in hs && Lawful(r, hs, h)
  }

  ghost function Feed(r: Rules, hs: Headers, s: seq<Header>): (g: Headers)
    requires Sound(r, hs)
    ensures Sound(r, g)
  {
    if s == [] then hs
    else
      var g := Feed(r, hs, s[..|s| - 1]);
      var h := s[|s| - 1];
      if Ready(r, g, h) then PlaceKeepsSound(r, g, h); Place(r, g, h) else g
  }

  lemma InsertFeeds(r: Rules, t: Tree, h: Header)
    requires TreeInv(r, map[], t) && t.holding.reached.None?
    ensures Insert(r, map[], t, h).holding.reached.None?
    ensures Insert(r, map[], t, h).holding.headers ==
            if Ready(r, t.holding.headers, h) then Place(r, t.holding.headers, h) else t.holding.headers
  {}

  /** Without checkpoints the tree holds what `Feed` gives. */
  lemma {:induction false} InsertAllFeeds(r: Rules, t: Tree, s: seq<Header>)
    requires TreeInv(r, map[], t) && t.holding.reached.None?
    ensures InsertAll(r, map[], t, s).holding.reached.None?
    ensures InsertAll(r, map[], t, s).holding.headers == Feed(r, t.holding.headers, s)
  {
    if s != [] {
      InsertAllFeeds(r, t, s[..|s| - 1]);
      InsertFeeds(r, InsertAll(r, map[], t, s[..|s| - 1]), s[|s| - 1]);
    }
  }

  /** `hs` extends `base` by headers of `pool`. */
  ghost predicate Drawn(r: Rules, base: Headers, hs: Headers, pool: set<Header>) {
    && Sound(r, base) && Sound(r, hs) && Sub(base, hs)
    && forall k | k in hs && k !in base :: hs[k].header in pool
  }

  ghost predicate Settled(r: Rules, hs: Headers, pool: set<Header>)
    requires Rooted(r, hs)
  {
    forall h | h in pool :: !Ready(r, hs, h)
  }

  /** A block lawful on one forest is lawful on any other that holds its parent. */
  lemma LawfulIsShared(r: Rules, a: Headers, b: Headers, h: Header)
    requires r.CollisionFree() && Rooted(r, a) && Rooted(r, b) && h.prev in a && h.prev in b
    ensures Lawful(r, a, h) <==> Lawful(r, b, h)
  {
    SharedEntriesAgree(r, a, b, h.prev);
    forall j | j in Chain(r, a, h.prev) ensures j in b && b[j] == a[j] {
      SharedEntriesAgree(r, a, b, j);
    }
    LawfulAgrees(r, a, b, h);
  }

  /** A settled forest holds everything any other draws from the same pool. */
  lemma {:induction false} SettledHoldsAll(r: Rules, base: Headers, a: Headers, b: Headers, pool: set<Header>, k: Hash)
    requires r.CollisionFree() && Drawn(r, base, a, pool) && Drawn(r, base, b, pool) && Settled(r, b, pool)
    requires k in a
    ensures k in b && b[k] == a[k]
    decreases a[k].height
  {
    if k !in base {
      assert Linked(r, a, k) && Legal(r, a, k) && r.Root() in base;
      var h := a[k].header;
      SettledHoldsAll(r, base, a, b, pool, h.prev);
      LawfulIsShared(r, a, b, h);
      assert !Ready(r, b, h);
      SharedEntriesAgree(r, a, b, k);
    }
  }

  lemma Confluence(r: Rules, base: Headers, a: Headers, b: Headers, pool: set<Header>)
    requires r.CollisionFree() && Drawn(r, base, a, pool) && Drawn(r, base, b, pool)
    requires Settled(r, a, pool) && Settled(r, b, pool)
    ensures a == b
  {
    forall k | k in a ensures k in b && b[k] == a[k] { SettledHoldsAll(r, base, a, b, pool, k); }
    forall k | k in b ensures k in a { SettledHoldsAll(r, base, b, a, pool, k); }
  }

  lemma {:induction false} FeedDraws(r: Rules, hs: Headers, s: seq<Header>, pool: set<Header>)
    requires Sound(r, hs) && forall h | h in s :: h in pool
    ensures Drawn(r, hs, Feed(r, hs, s), pool)
  {
    if s != [] { FeedDraws(r, hs, s[..|s| - 1], pool); }
  }

  /** No header comes before its parent. */
  ghost predicate ParentFirst(r: Rules, s: seq<Header>) {
    forall i, j | 0 <= i <= j < |s| :: s[i].prev != r.hash(s[j])
  }

  lemma {:induction false} ParentFirstSettles(r: Rules, hs: Headers, s: seq<Header>, i: nat)
    requires r.CollisionFree() && Sound(r, hs) && ParentFirst(r, s) && i < |s|
    ensures !Ready(r, Feed(r, hs, s), s[i])
  {
    var init := s[..|s| - 1];
    var g := Feed(r, hs, init);
    var h := s[|s| - 1];
    if i < |s| - 1 { ParentFirstSettles(r, hs, init, i); }
    if Ready(r, g, h) {
      PlaceKeepsRooted(r, g, h);
      assert r.hash(h) != s[i].prev;
      if s[i].prev in g { LawfulIsShared(r, g, Place(r, g, h), s[i]); }
    }
  }

  /** Without checkpoints, any two parent-first orders of the same headers give the same tree: the
      same headers at the same heights with the same work, and a tip of the same work. */
  lemma OrderDoesNotMatter(r: Rules, t: Tree, u: Tree, s: seq<Header>, s': seq<Header>)
    requires r.CollisionFree() && TreeInv(r, map[], t) && TreeInv(r, map[], u)
    requires t.holding.headers == u.holding.headers && t.holding.reached.None? && u.holding.reached.None?
    requires ParentFirst(r, s) && ParentFirst(r, s') && forall h :: h in s <==> h in s'
    ensures var f := InsertAll(r, map[], t, s).holding;
            var f' := InsertAll(r, map[], u, s').holding;
            f.headers == f'.headers && f.headers[f.tip].work == f'.headers[f'.tip].work
  {
    var hs := t.holding.headers;
    var pool := set h | h in s;
    InsertAllFeeds(r, t, s);
    InsertAllFeeds(r, u, s');
    FeedDraws(r, hs, s, pool);
    FeedDraws(r, hs, s', pool);
    forall h | h in pool ensures !Ready(r, Feed(r, hs, s), h) && !Ready(r, Feed(r, hs, s'), h) {
      assert h in s && h in s';
      var i :| 0 <= i < |s| && s[i] == h;
      var j :| 0 <= j < |s'| && s'[j] == h;
      ParentFirstSettles(r, hs, s, i);
      ParentFirstSettles(r, hs, s', j);
    }
    Confluence(r, hs, Feed(r, hs, s), Feed(r, hs, s'), pool);
  }

  // ---- Passes ------------------------------------------------------------------------------

  ghost function FeedPasses(r: Rules, hs: Headers, passes: seq<seq<Header>>): (g: Headers)
    requires Sound(r, hs)
    ensures Sound(r, g)
  {
    if passes == [] then hs
    else Feed(r, FeedPasses(r, hs, passes[..|passes| - 1]), passes[|passes| - 1])
  }

  /** How many headers of the ancestry of `k` are not in `base`. */
  ghost function Depth(r: Rules, base: Headers, hs: Headers, k: Hash): nat
    requires Rooted(r, base) && Rooted(r, hs) && k in hs
    decreases hs[k].height
  {
    assert Linked(r, hs, k);
    if k in base then 0 else 1 + Depth(r, base, hs, hs[k].header.prev)
  }

  lemma {:induction false} FeedPlaces(r: Rules, hs: Headers, s: seq<Header>, h: Header)
    requires r.CollisionFree() && Sound(r, hs) && h in s && h.prev in hs && Lawful(r, hs, h)
    ensures r.hash(h) in Feed(r, hs, s)
  {
    var init := s[..|s| - 1];
    if h in init {
      FeedPlaces(r, hs, init, h);
    } else {
      FeedDraws(r, hs, init, set x | x in init);
      LawfulIsShared(r, hs, Feed(r, hs, init), h);
    }
  }

  /** Every pass offers the same headers, each in an order of its own. */
  ghost predicate Offer(passes: seq<seq<Header>>, pool: set<Header>) {
    forall i, h | 0 <= i < |passes| :: h in passes[i] <==> h in pool
  }

  lemma {:induction false} PassesDraw(r: Rules, hs: Headers, passes: seq<seq<Header>>, pool: set<Header>)
    requires Sound(r, hs) && Offer(passes, pool)
    ensures Drawn(r, hs, FeedPasses(r, hs, passes), pool)
  {
    if passes != [] {
      var init := passes[..|passes| - 1];
      PassesDraw(r, hs, init, pool);
      FeedDraws(r, FeedPasses(r, hs, init), passes[|passes| - 1], pool);
    }
  }

  /** Fed over and over, in whatever order each time, a set of headers is placed one generation a
      pass: whatever any forest over `base` can draw from it at depth `d` is held after `d` passes. */
  lemma {:induction false} EachFeedPlacesAGeneration(r: Rules, base: Headers, a: Headers, pool: set<Header>,
                                                     passes: seq<seq<Header>>, k: Hash)
    requires r.CollisionFree() && Drawn(r, base, a, pool) && Offer(passes, pool)
    requires k in a && Depth(r, base, a, k) <= |passes|
    ensures k in FeedPasses(r, base, passes) && FeedPasses(r, base, passes)[k] == a[k]
  {
    PassesDraw(r, base, passes, pool);
    var g := FeedPasses(r, base, passes);
    if k !in base {
      assert Linked(r, a, k) && Legal(r, a, k);
      var init, last := passes[..|passes| - 1], passes[|passes| - 1];
      var h := a[k].header;
      EachFeedPlacesAGeneration(r, base, a, pool, init, h.prev);
      var g' := FeedPasses(r, base, init);
      LawfulIsShared(r, a, g', h);
      FeedPlaces(r, g', last, h);
      SharedEntriesAgree(r, a, g, k);
    }
  }

  /** So as many passes as the deepest of them place them all. */
  lemma FeedsPlaceAll(r: Rules, base: Headers, a: Headers, pool: set<Header>, passes: seq<seq<Header>>)
    requires r.CollisionFree() && Drawn(r, base, a, pool) && Settled(r, a, pool) && Offer(passes, pool)
    requires forall k | k in a :: Depth(r, base, a, k) <= |passes|
    ensures FeedPasses(r, base, passes) == a
  {
    PassesDraw(r, base, passes, pool);
    var g := FeedPasses(r, base, passes);
    forall k | k in a ensures k in g && g[k] == a[k] {
      EachFeedPlacesAGeneration(r, base, a, pool, passes, k);
    }
    forall k | k in g ensures k in a { SettledHoldsAll(r, base, g, a, pool, k); }
  }

  /** The tree fed so. */
  ghost function InsertPasses(r: Rules, t: Tree, passes: seq<seq<Header>>): (t': Tree)
    requires TreeInv(r, map[], t)
    ensures TreeInv(r, map[], t')
  {
    if passes == [] then t else InsertAll(r, map[], InsertPasses(r, t, passes[..|passes| - 1]), passes[|passes| - 1])
  }

  lemma {:induction false} PassesFeed(r: Rules, t: Tree, passes: seq<seq<Header>>)
    requires TreeInv(r, map[], t) && t.holding.reached.None?
    ensures InsertPasses(r, t, passes).holding.reached.None?
    ensures InsertPasses(r, t, passes).holding.headers == FeedPasses(r, t.holding.headers, passes)
  {
    if passes != [] {
      PassesFeed(r, t, passes[..|passes| - 1]);
      InsertAllFeeds(r, InsertPasses(r, t, passes[..|passes| - 1]), passes[|passes| - 1]);
    }
  }

  /** A tree without checkpoints offered the same headers over and over, each time in an order of its own, holds
      after `d` passes whatever can be placed at depth `d`. */
  lemma EachPassPlacesAGeneration(r: Rules, t: Tree, a: Headers, pool: set<Header>, passes: seq<seq<Header>>, k: Hash)
    requires r.CollisionFree() && TreeInv(r, map[], t) && t.holding.reached.None?
    requires Drawn(r, t.holding.headers, a, pool) && Offer(passes, pool)
    requires k in a && Depth(r, t.holding.headers, a, k) <= |passes|
    ensures var hs := InsertPasses(r, t, passes).holding.headers; k in hs && hs[k] == a[k]
  {
    PassesFeed(r, t, passes);
    EachFeedPlacesAGeneration(r, t.holding.headers, a, pool, passes, k);
  }

  /** So as many passes as the deepest of them place them all. */
  lemma PassesPlaceAll(r: Rules, t: Tree, a: Headers, pool: set<Header>, passes: seq<seq<Header>>)
    requires r.CollisionFree() && TreeInv(r, map[], t) && t.holding.reached.None?
    requires Drawn(r, t.holding.headers, a, pool) && Settled(r, a, pool) && Offer(passes, pool)
    requires forall k | k in a :: Depth(r, t.holding.headers, a, k) <= |passes|
    ensures InsertPasses(r, t, passes).holding.headers == a
  {
    PassesFeed(r, t, passes);
    FeedsPlaceAll(r, t.holding.headers, a, pool, passes);
  }

  // ---- The tip does not come back ----------------------------------------------------------

  /** The tip of `f0` is still held in `f`, or has gone at or below a checkpoint reached. */
  ghost predicate HeldOrPruned(f0: Holding, f: Holding)
    requires f0.tip in f0.headers
  {
    f0.tip in f.headers || Passed(f.reached, f0.headers[f0.tip].height)
  }

  /** A block gone below a checkpoint is never taken again. */
  lemma NeverTakenAgain(r: Rules, cps: Checkpoints, f0: Holding, f: Holding, h: Header)
    requires r.CollisionFree() && Inv(r, cps, f0) && Inv(r, cps, f) && Takes(r, cps, f, h) && HeldOrPruned(f0, f)
    ensures r.hash(h) != f0.tip
  {
    PlaceKeepsRooted(r, f.headers, h);
    if r.hash(h) == f0.tip {
      SharedEntriesAgree(r, f0.headers, Place(r, f.headers, h), f0.tip);
    }
  }

  lemma GrowHoldsOrPrunes(r: Rules, cps: Checkpoints, f0: Holding, f: Holding, h: Header)
    requires r.CollisionFree() && Inv(r, cps, f0) && Inv(r, cps, f) && Takes(r, cps, f, h) && HeldOrPruned(f0, f)
    ensures HeldOrPruned(f0, Grow(r, cps, f, h))
  {
    if f.headers[h.prev].height + 1 in cps && f0.tip in f.headers {
      SharedEntriesAgree(r, f0.headers, f.headers, f0.tip);
      NothingAboveANewCheckpoint(r, cps, f, h);
    }
  }

  /** Once the tip has changed it does not change back, so comparing it with the one at the start of a
      batch says whether the best chain needs rebuilding. */
  lemma TipDoesNotComeBack(r: Rules, cps: Checkpoints, f0: Holding, t: Tree, h: Header)
    requires r.CollisionFree() && Inv(r, cps, f0) && TreeInv(r, cps, t) && HeldOrPruned(f0, t.holding)
    ensures HeldOrPruned(f0, Insert(r, cps, t, h).holding)
    ensures t.holding.tip != f0.tip ==> Insert(r, cps, t, h).holding.tip != f0.tip
  {
    if Judge(r, cps, t, h).Accepted? {
      NeverTakenAgain(r, cps, f0, t.holding, h);
      GrowHoldsOrPrunes(r, cps, f0, t.holding, h);
    }
  }

  // ---- Batches -----------------------------------------------------------------------------

  function Count(vs: seq<Verdict>): nat {
    if vs == [] then 0 else Count(vs[..|vs| - 1]) + if vs[|vs| - 1].Accepted? then 1 else 0
  }

  function FirstRefusal(vs: seq<Verdict>): Option<HeaderError> {
    if vs == [] then None
    else
      var earlier := FirstRefusal(vs[..|vs| - 1]);
      if earlier.None? && vs[|vs| - 1].Refused? then Some(vs[|vs| - 1].reason) else earlier
  }

  /** A tree that holds nothing but the genesis block. */
  ghost function Fresh(r: Rules, cps: Checkpoints): Tree {
    Tree(Holding(map[r.Root() := Entry(r.genesis, 0, r.work(r.genesis))], r.Root(),
                 if 0 in cps && cps[0] == r.Root() then Some(0) else None), [])
  }

  lemma FreshInv(r: Rules, cps: Checkpoints)
    ensures TreeInv(r, cps, Fresh(r, cps))
    ensures Chain(r, Fresh(r, cps).holding.headers, r.Root()) == [r.Root()]
  {
    var hs := Fresh(r, cps).holding.headers;
    assert Linked(r, hs, r.Root());
    assert Rooted(r, hs);
    assert Legal(r, hs, r.Root());
  }

  /** A file of headers replayed into a fresh tree. */
  ghost function Replayed(r: Rules, cps: Checkpoints, file: seq<Header>): (t: Tree)
    ensures TreeInv(r, cps, t)
  {
    FreshInv(r, cps);
    InsertAll(r, cps, Fresh(r, cps), file)
  }

  ghost function ReplayVerdicts(r: Rules, cps: Checkpoints, file: seq<Header>): (vs: seq<Verdict>)
    ensures |vs| == |file|
  {
    FreshInv(r, cps);
    Verdicts(r, cps, Fresh(r, cps), file)
  }

  lemma InsertOneMore(r: Rules, cps: Checkpoints, t: Tree, s: seq<Header>, h: Header, s': seq<Header>)
    requires TreeInv(r, cps, t) && s' == s + [h]
    ensures InsertAll(r, cps, t, s') == Insert(r, cps, InsertAll(r, cps, t, s), h)
    ensures Verdicts(r, cps, t, s') == Verdicts(r, cps, t, s) + [Judge(r, cps, InsertAll(r, cps, t, s), h)]
  {
    assert s'[..|s'| - 1] == s;
  }

  /** What a run from `t` comes to: how many headers were taken and the first refusal. */
  ghost predicate Tally(r: Rules, cps: Checkpoints, t: Tree, s: seq<Header>, accepted: nat, err: Option<HeaderError>)
    requires TreeInv(r, cps, t)
  {
    accepted == Count(Verdicts(r, cps, t, s)) && err == FirstRefusal(Verdicts(r, cps, t, s))
  }

  lemma TallyOneMore(r: Rules, cps: Checkpoints, t: Tree, s: seq<Header>, h: Header, s': seq<Header>, accepted: nat,
                     err: Option<HeaderError>)
    requires TreeInv(r, cps, t) && s' == s + [h] && Tally(r, cps, t, s, accepted, err)
    ensures InsertAll(r, cps, t, s') == Insert(r, cps, InsertAll(r, cps, t, s), h)
    ensures var v := Judge(r, cps, InsertAll(r, cps, t, s), h);
            Tally(r, cps, t, s', if v.Accepted? then accepted + 1 else accepted,
                  if err.None? && v.Refused? then Some(v.reason) else err)
  {
    InsertOneMore(r, cps, t, s, h, s');
    CountOneMore(Verdicts(r, cps, t, s), Judge(r, cps, InsertAll(r, cps, t, s), h));
  }

  lemma CountOneMore(vs: seq<Verdict>, v: Verdict)
    ensures Count(vs + [v]) == Count(vs) + (if v.Accepted? then 1 else 0)
    ensures FirstRefusal(vs + [v]) ==
            if FirstRefusal(vs).None? && v.Refused? then Some(v.reason) else FirstRefusal(vs)
  {
    assert (vs + [v])[..|vs|] == vs;
  }
}
