/**
 Cases of the header tree built through the object itself: a fork of a given depth between two trees, and a
 tree that comes back on another tip.
 */
module TreeCases {
  import opened Basics
  import opened Forest
  import opened OpenNetwork
  import opened TreeSpec
  import opened TreeRuns
  import opened TreeFile
  import opened Locator
  import opened SyncSpec
  import opened SyncReach
  import opened HeaderTrees
  import opened HeaderSync

  // ---- Rows of blocks ------------------------------------------------------------------------------

  /** `n` blocks one on the other, the first on `from`. */
  function Row(r: Rules, from: Hash, n: nat, tag: nat): (s: seq<Header>)
    ensures |s| == n && forall h | h in s :: h.body == tag
  {
    if n == 0 then []
    else
      var init := Row(r, from, n - 1, tag);
      init + [Header(if n == 1 then from else r.hash(init[n - 2]), 0, tag)]
  }

  lemma RowOneMore(r: Rules, from: Hash, n: nat, tag: nat) returns (h: Header)
    requires n > 0
    ensures Row(r, from, n, tag) == Row(r, from, n - 1, tag) + [h] && h.body == tag
    ensures h.prev == if n == 1 then from else r.hash(Row(r, from, n - 1, tag)[n - 2])
  {
    h := Header(if n == 1 then from else r.hash(Row(r, from, n - 1, tag)[n - 2]), 0, tag);
  }

  function Hashes(r: Rules, s: seq<Header>): (ks: seq<Hash>)
    ensures |ks| == |s| && forall i | 0 <= i < |s| :: ks[i] == r.hash(s[i])
  {
    if s == [] then [] else Hashes(r, s[..|s| - 1]) + [r.hash(s[|s| - 1])]
  }

  /** A child of the tip is not held yet: it would be heavier than the tip. */
  lemma TipChildIsNew(r: Rules, f: Holding, h: Header)
    requires r.CollisionFree() && Inv(r, map[], f) && h.prev == f.tip && h != r.genesis
    ensures r.hash(h) !in f.headers
  {
    assert forall k | k in f.headers :: Linked(r, f.headers, k);
  }

  lemma TipChildJoins(r: Rules, t: Tree, h: Header, f: Holding, f': Holding)
    requires r.CollisionFree() && LetsAllIn(r) && TreeInv(r, map[], t) && t.holding.reached.None?
    requires f == t.holding && f' == Insert(r, map[], t, h).holding && h.prev == f.tip && h != r.genesis
    ensures Rooted(r, f'.headers) && f'.tip in f'.headers && f'.reached.None?
    ensures Chain(r, f'.headers, f'.tip) == Chain(r, f.headers, f.tip) + [r.hash(h)] && f'.tip == r.hash(h)
  {
    TipChildIsNew(r, f, h);
    JoinsOpenTree(r, t, h, r.hash(h));
    PlaceKeepsRooted(r, f.headers, h);
  }

  lemma {:induction false} RowJoins(r: Rules, t: Tree, n: nat, tag: nat)
    requires r.CollisionFree() && LetsAllIn(r) && TreeInv(r, map[], t) && t.holding.reached.None?
    requires tag != r.genesis.body
    ensures var s := Row(r, t.holding.tip, n, tag); var f' := InsertAll(r, map[], t, s).holding;
            && f'.reached.None?
            && Chain(r, f'.headers, f'.tip) == Chain(r, t.holding.headers, t.holding.tip) + Hashes(r, s)
  {
    if n > 0 {
      RowJoins(r, t, n - 1, tag);
      var h := RowOneMore(r, t.holding.tip, n, tag);
      RowJoinsOne(r, t, Row(r, t.holding.tip, n - 1, tag), h, Row(r, t.holding.tip, n, tag));
    }
  }

  lemma EndsWith(base: seq<Hash>, ks: seq<Hash>, whole: seq<Hash>, last: Hash)
    requires base != [] && whole == base + ks && last == if ks == [] then base[|base| - 1] else ks[|ks| - 1]
    ensures whole[|whole| - 1] == last
  {}

  lemma Onward(base: seq<Hash>, ks: seq<Hash>, k: Hash, ks': seq<Hash>)
    requires ks' == ks + [k]
    ensures base + ks + [k] == base + ks'
  {}

  lemma RowJoinsOne(r: Rules, t: Tree, init: seq<Header>, h: Header, s: seq<Header>)
    requires r.CollisionFree() && LetsAllIn(r) && TreeInv(r, map[], t) && h != r.genesis && s == init + [h]
    requires h.prev == if init == [] then t.holding.tip else r.hash(init[|init| - 1])
    requires var f := InsertAll(r, map[], t, init).holding;
             && f.reached.None?
             && Chain(r, f.headers, f.tip) == Chain(r, t.holding.headers, t.holding.tip) + Hashes(r, init)
    ensures var f' := InsertAll(r, map[], t, s).holding;
            && f'.reached.None?
            && Chain(r, f'.headers, f'.tip) == Chain(r, t.holding.headers, t.holding.tip) + Hashes(r, s)
  {
    var u, base := InsertAll(r, map[], t, init), Chain(r, t.holding.headers, t.holding.tip);
    EndsWith(base, Hashes(r, init), Chain(r, u.holding.headers, u.holding.tip), h.prev);
    InsertOneMore(r, map[], t, init, h, s);
    TipChildJoins(r, u, h, u.holding, InsertAll(r, map[], t, s).holding);
    HashesOneMore(r, init, h, s);
    Onward(base, Hashes(r, init), r.hash(h), Hashes(r, s));
  }

  lemma HashesOneMore(r: Rules, init: seq<Header>, h: Header, s: seq<Header>)
    requires s == init + [h]
    ensures Hashes(r, s) == Hashes(r, init) + [r.hash(h)]
  {
    assert s[..|s| - 1] == init;
  }

  /** Puts `n` blocks on the tip, one on the other. */
  method Extend(tree: HeaderTree, n: nat, tag: nat)
    requires tree.Valid() && tree.checkpoints == map[] && tree.reached.None?
    requires LetsAllIn(tree.rules) && tag != tree.rules.genesis.body
    modifies tree
    ensures tree.Valid() && tree.reached.None?
    ensures tree.bestChain == old(tree.bestChain) + Hashes(tree.rules, Row(tree.rules, old(tree.tip), n, tag))
  {
    RowJoins(tree.rules, tree.AsTree(), n, tag);
    var accepted, err := tree.InsertBatch(Row(tree.rules, tree.tip, n, tag));
  }

  // ---- A fork of a given depth -----------------------------------------------------------------------

  /** Two chains that part after `shared`, one `depth` blocks on and the other one block more. */
  lemma ForkIsNear(r: Rules, shared: seq<Hash>, a: seq<Header>, b: seq<Header>, ours: seq<Hash>, theirs: seq<Hash>)
    requires r.CollisionFree() && |shared| > 0 && |b| == |a| + 1
    requires (forall h | h in a :: h.body == 2) && (forall h | h in b :: h.body == 3)
    requires ours == shared + Hashes(r, a) && theirs == shared + Hashes(r, b)
    ensures Near(ours, theirs) <==> |ours| <= MAX_HEADERS || |a| <= 1128
  {
    assert Shares(ours, theirs, |shared| - 1);
    forall h: nat | |shared| <= h < |ours| ensures ours[h] != theirs[h] {
      assert a[h - |shared|] in a && b[h - |shared|] in b;
    }
  }

  /** With all blocks of one work no block is above the tip. */
  lemma LowUpToTheTip(r: Rules, f: Holding)
    requires Even(r, f.headers) && Inv(r, map[], f) && f.headers[f.tip].height < 0x1_0000_0000
    ensures Low(f.headers)
  {
    forall k | k in f.headers ensures f.headers[k].height < 0x1_0000_0000 {
      HigherIsHeavier(r, f.headers, f.headers, f.tip, k);
    }
  }

  /** The genesis block and `common` blocks on it. */
  function Trunk(r: Rules, common: nat): seq<Hash> { [r.Root()] + Hashes(r, Row(r, r.Root(), common, 1)) }

  /** A tree with `n` blocks on a trunk. */
  method Branch(r: Rules, common: nat, n: nat, tag: nat) returns (tree: HeaderTree, ghost row: seq<Header>)
    requires r.CollisionFree() && LetsAllIn(r) && 1 != r.genesis.body && tag != r.genesis.body
    ensures fresh(tree) && tree.Valid() && tree.rules == r && tree.checkpoints == map[] && tree.reached.None?
    ensures |row| == n && (forall h | h in row :: h.body == tag) && tree.bestChain == Trunk(r, common) + Hashes(r, row)
  {
    tree := new HeaderTree(r, map[]);
    FreshInv(r, map[]);
    Extend(tree, common, 1);
    row := Row(r, tree.tip, n, tag);
    Extend(tree, n, tag);
  }

  /** Two trees that share `common` blocks after the genesis block; then ours has `depth` of its own, and the
      peer's one more. */
  method Fork(r: Rules, common: nat, depth: nat) returns (ours: HeaderTree, peer: HeaderTree)
    requires r.CollisionFree() && LetsAllIn(r) && r.genesis.body == 0
    ensures fresh(ours) && fresh(peer) && Pair(ours, peer) && ours.rules == r
    ensures |ours.bestChain| == common + depth + 1 && |peer.bestChain| == common + depth + 2
    ensures NearFork(ours, peer) <==> common + depth < 2000 || depth <= 1128
  {
    ghost var a, b;
    ours, a := Branch(r, common, depth, 2);
    peer, b := Branch(r, common, depth + 1, 3);
    ForkIsNear(r, Trunk(r, common), a, b, ours.bestChain, peer.bestChain);
  }

  /** Asking across that fork catches up exactly if it is at most 1128 deep, or our chain is shorter than
      one answer. */
  method AskAcross(common: nat, depth: nat) returns (ours: HeaderTree, peer: HeaderTree)
    requires common + depth + 1 < 0x1_0000_0000
    ensures fresh(ours) && fresh(peer) && Pair(ours, peer)
    ensures peer.tipWork <= ours.tipWork <==> common + depth < 2000 || depth <= 1128
  {
    var r := OpenRules((_: Header) => 1);
    OpenRulesAreCollisionFree(r.work);
    OpenRulesLetAllIn(r.work);
    ours, peer := Fork(r, common, depth);
    LowUpToTheTip(ours.rules, ours.Held());
    LowUpToTheTip(peer.rules, peer.Held());
    HigherIsHeavier(ours.rules, ours.headers, peer.headers, ours.tip, peer.tip);
    var answer := SynchroniseEven(ours, peer);
  }

  /** At 1129 it is stuck, short of a peer one block ahead. */
  method StuckAt1129() returns (ours: HeaderTree, peer: HeaderTree)
    ensures fresh(ours) && fresh(peer) && Pair(ours, peer) && ours.tipWork < peer.tipWork
  {
    ours, peer := AskAcross(1023, 1129);
  }

  // ---- A tip that does not come back -----------------------------------------------------------------

  lemma TieIsTaken(r: Rules)
    requires r == TieRules()
    ensures TreeInv(r, map[], Fresh(r, map[]))
    ensures Count(Verdicts(r, map[], Fresh(r, map[]), TieBlocks(r))) > 0
  {
    FreshInv(r, map[]);
    TieIsHeld(r);
    CountGrows(r, Fresh(r, map[]), TieBlocks(r));
    var hs, f := Fresh(r, map[]).holding.headers, TieTree(r).holding;
    SubsetSize({r.Root(), f.tip}, f.headers.Keys);
  }

  method SaveTie(r: Rules) returns (saved: HeaderTree, file: seq<Header>, ghost listing: seq<Hash>)
    requires r.CollisionFree() && TreeInv(r, map[], Fresh(r, map[]))
    requires Count(Verdicts(r, map[], Fresh(r, map[]), TieBlocks(r))) > 0
    ensures fresh(saved) && saved.Valid() && saved.rules == r && saved.checkpoints == map[]
    ensures saved.Held() == TieTree(r).holding
    ensures Listed(saved.headers, saved.bestChain, listing) && file == File(saved.headers, listing)
  {
    saved := new HeaderTree(r, map[]);
    var accepted, err := saved.InsertBatch(TieBlocks(r));
    var f, l := saved.Save();
    file, listing := f.value, l;
  }

  /** A tree saved and loaded with the same rules and checkpoints, on another tip. */
  method ComesBackElsewhere() returns (saved: HeaderTree, loaded: HeaderTree)
    ensures fresh(saved) && fresh(loaded) && saved.Valid() && loaded.Valid()
    ensures saved.rules == loaded.rules && saved.checkpoints == loaded.checkpoints
    ensures loaded.headers == saved.headers && loaded.tip != saved.tip
  {
    var r := TieRules();
    TieIsHeld(r);
    TieIsTaken(r);
    var file;
    ghost var listing;
    saved, file, listing := SaveTie(r);
    loaded := HeaderTree.Load(r, map[], file);
    TheLowerOfATieWins(r, listing);
    LoadRestores(r, map[], TieTree(r).holding, saved.bestChain, listing);
  }
}
