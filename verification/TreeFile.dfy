/**
 Saving and loading the tree: the order a tree is written in replays straight back into it.
 */
module TreeFile {
  import opened Basics
  import opened Forest
  import opened TreeSpec
  import opened TreeRuns
  import opened OpenNetwork

  /** Height first; at one height the block on the best chain, then the rest by hash. */
  predicate Less(hs: Headers, best: seq<Hash>, a: Hash, b: Hash)
    requires a in hs && b in hs
  {
    || hs[a].height < hs[b].height
    || (hs[a].height == hs[b].height && a in best && b !in best)
    || (hs[a].height == hs[b].height && (a in best <==> b in best) && a < b)
  }

  /** `s` lists what the tree holds in the order it is saved in. */
  ghost predicate Listed(hs: Headers, best: seq<Hash>, s: seq<Hash>) {
    && (forall i | 0 <= i < |s| :: s[i] in hs)
    && (forall k | k in hs :: k in s)
    && (forall i, j | 0 <= i < j < |s| :: Less(hs, best, s[i], s[j]))
  }

  lemma LessIsAnOrder(hs: Headers, best: seq<Hash>, a: Hash, b: Hash, c: Hash)
    requires a in hs && b in hs && c in hs
    ensures a != b ==> Less(hs, best, a, b) || Less(hs, best, b, a)
    ensures Less(hs, best, a, b) && Less(hs, best, b, c) ==> Less(hs, best, a, c)
  {}

  /** Hashes of a tree in its saving order. */
  ghost predicate InOrder(hs: Headers, best: seq<Hash>, s: seq<Hash>) {
    && (forall i | 0 <= i < |s| :: s[i] in hs)
    && (forall i, j | 0 <= i < j < |s| :: Less(hs, best, s[i], s[j]))
  }

  lemma SameFirst(hs: Headers, best: seq<Hash>, s: seq<Hash>, t: seq<Hash>)
    requires InOrder(hs, best, s) && InOrder(hs, best, t) && s != [] && t != []
    requires s[0] in t && t[0] in s
    ensures s[0] == t[0]
  {
    var i :| 0 <= i < |s| && s[i] == t[0];
    var j :| 0 <= j < |t| && t[j] == s[0];
    assert i > 0 ==> Less(hs, best, s[0], t[0]);
    assert j > 0 ==> Less(hs, best, t[0], s[0]);
  }

  lemma RestInOrder(hs: Headers, best: seq<Hash>, s: seq<Hash>)
    requires InOrder(hs, best, s) && s != []
    ensures InOrder(hs, best, s[1..]) && s[0] !in s[1..] && forall k :: k in s <==> k == s[0] || k in s[1..]
  {
    assert s == [s[0]] + s[1..];
    forall i | 0 < i < |s| ensures s[i] != s[0] { assert Less(hs, best, s[0], s[i]); }
  }

  lemma HasOne(s: seq<Hash>)
    ensures s != [] ==> exists k :: k in s
  {
    if s != [] { assert s[0] in s; }
  }

  lemma {:induction false} OneOrder(hs: Headers, best: seq<Hash>, s: seq<Hash>, t: seq<Hash>)
    requires InOrder(hs, best, s) && InOrder(hs, best, t) && forall k :: k in s <==> k in t
    ensures s == t
  {
    HasOne(t);
    if s != [] {
      assert s[0] in t && t[0] in s;
      SameFirst(hs, best, s, t);
      RestInOrder(hs, best, s);
      RestInOrder(hs, best, t);
      OneOrder(hs, best, s[1..], t[1..]);
    }
  }

  /** A tree is saved in one order only, whatever order its map is walked in. */
  lemma SavedInOneOrder(hs: Headers, best: seq<Hash>, s: seq<Hash>, t: seq<Hash>)
    requires Listed(hs, best, s) && Listed(hs, best, t)
    ensures s == t
  {
    OneOrder(hs, best, s, t);
  }

  lemma {:induction false} LeastExists(hs: Headers, best: seq<Hash>, rest: set<Hash>) returns (k: Hash)
    requires rest != {} && forall x | x in rest :: x in hs
    ensures k in rest && forall x | x in rest && x != k :: Less(hs, best, k, x)
    decreases rest
  {
    var a :| a in rest;
    k := a;
    if rest != {a} {
      var j := LeastExists(hs, best, rest - {a});
      k := if Less(hs, best, j, a) then j else a;
      forall x | x in rest && x != k ensures Less(hs, best, k, x) { LessIsAnOrder(hs, best, a, j, x); }
    }
  }

  /** Part-way through a listing, `rest` still to come. */
  ghost predicate Listing(hs: Headers, best: seq<Hash>, s: seq<Hash>, rest: set<Hash>) {
    && (forall i | 0 <= i < |s| :: s[i] in hs)
    && (forall k :: k in rest ==> k in hs)
    && (forall k | k in hs :: k in rest || k in s)
    && (forall i, j | 0 <= i < j < |s| :: Less(hs, best, s[i], s[j]))
    && (forall i, k | 0 <= i < |s| && k in rest :: Less(hs, best, s[i], k))
  }

  lemma ListingGrows(hs: Headers, best: seq<Hash>, s: seq<Hash>, rest: set<Hash>, k: Hash)
    requires Listing(hs, best, s, rest) && k in rest && forall x | x in rest && x != k :: Less(hs, best, k, x)
    ensures Listing(hs, best, s + [k], rest - {k})
  {
    var s' := s + [k];
    assert forall i | 0 <= i < |s| :: s'[i] == s[i];
    assert forall x | x in s :: x in s';
    assert s'[|s|] == k;
    forall x | x in hs ensures x in rest - {k} || x in s' {
      if x != k && x !in rest { assert x in s; }
    }
  }

  lemma ListingDone(hs: Headers, best: seq<Hash>, s: seq<Hash>)
    requires Listing(hs, best, s, {})
    ensures Listed(hs, best, s)
  {}

  /** The headers in that order, which is what the file holds. */
  ghost function File(hs: Headers, s: seq<Hash>): (file: seq<Header>)
    requires forall i | 0 <= i < |s| :: s[i] in hs
    ensures |file| == |s|
  {
    seq(|s|, i requires 0 <= i < |s| => hs[s[i]].header)
  }

  ghost function Upto(hs: Headers, s: seq<Hash>, n: nat): Headers
    requires n <= |s|
  {
    map k | k in hs && k in s[..n] :: hs[k]
  }

  /** `k` is the first of the first `n` to reach the most work among them. */
  ghost predicate FirstHeaviest(hs: Headers, s: seq<Hash>, n: nat, k: Hash)
    requires n <= |s| && forall i | 0 <= i < |s| :: s[i] in hs
  {
    exists m ::
      && 0 <= m < n && s[m] == k
      && (forall j | 0 <= j < m :: hs[s[j]].work < hs[k].work)
      && (forall j | 0 <= j < n :: hs[s[j]].work <= hs[k].work)
  }

  // ---- One header of the file ----------------------------------------------------------------

  lemma ListedAt(hs: Headers, best: seq<Hash>, s: seq<Hash>, k: Hash) returns (i: nat)
    requires Listed(hs, best, s) && k in hs
    ensures i < |s| && s[i] == k
  {
    i :| 0 <= i < |s| && s[i] == k;
  }

  lemma UptoGrows(hs: Headers, best: seq<Hash>, s: seq<Hash>, n: nat)
    requires Listed(hs, best, s) && n < |s|
    ensures s[n] !in Upto(hs, s, n) && Upto(hs, s, n)[s[n] := hs[s[n]]] == Upto(hs, s, n + 1)
  {
    forall i | 0 <= i < n ensures s[i] != s[n] { assert Less(hs, best, s[i], s[n]); }
    assert s[..n + 1] == s[..n] + [s[n]];
  }

  lemma UptoHeights(hs: Headers, best: seq<Hash>, s: seq<Hash>, n: nat)
    requires Listed(hs, best, s) && n < |s|
    ensures forall k | k in Upto(hs, s, n) :: hs[k].height <= hs[s[n]].height
    ensures forall k | k in hs && hs[k].height < hs[s[n]].height :: k in Upto(hs, s, n)
  {
    forall k | k in s[..n] ensures k in hs && hs[k].height <= hs[s[n]].height {
      var i :| 0 <= i < n && s[..n][i] == k;
      assert Less(hs, best, s[i], s[n]);
    }
    forall k | k in hs && hs[k].height < hs[s[n]].height ensures k in s[..n] {
      var i := ListedAt(hs, best, s, k);
      assert n < i ==> Less(hs, best, s[n], s[i]);
      assert s[..n][i] == k;
    }
  }

  /** The part of the file replayed so far is a tree with the saved entries. */
  ghost predicate Replaying(r: Rules, cps: Checkpoints, f: Holding, s: seq<Hash>, n: nat, t: Tree)
    requires n <= |s| && forall i | 0 <= i < |s| :: s[i] in f.headers
  {
    && TreeInv(r, cps, t)
    && t.holding.headers == Upto(f.headers, s, n)
    && FirstHeaviest(f.headers, s, n, t.holding.tip)
  }

  /** A saved header is lawful on any part of the tree that holds its parent, and files as it was. */
  lemma LawfulInPart(r: Rules, hs: Headers, g: Headers, k: Hash)
    requires Sound(r, hs) && Rooted(r, g) && Sub(g, hs) && k in hs && k != r.Root() && hs[k].header.prev in g
    ensures Lawful(r, g, hs[k].header) && Child(r, g, hs[k].header) == hs[k] && r.hash(hs[k].header) == k
  {
    assert Linked(r, hs, k) && Legal(r, hs, k);
    LawfulAgrees(r, g, hs, hs[k].header);
  }

  lemma ParentIsThere(r: Rules, hs: Headers, best: seq<Hash>, s: seq<Hash>, n: nat)
    requires Rooted(r, hs) && Listed(hs, best, s) && 0 < n < |s|
    ensures s[n] != r.Root() && hs[s[n]].header.prev in Upto(hs, s, n)
  {
    UptoHeights(hs, best, s, n);
    var i := ListedAt(hs, best, s, r.Root());
    assert Linked(r, hs, s[0]) && Linked(r, hs, s[n]);
    assert Less(hs, best, s[0], s[n]);
  }

  /** What a reached checkpoint says about the height of a header that comes later. */
  lemma LaterIsHigher(r: Rules, cps: Checkpoints, f: Holding, hs: Headers, k: Hash)
    requires Rooted(r, f.headers) && Frozen(r, cps, f) && Sub(f.headers, hs) && Agreed(cps, hs)
    requires k in hs && k !in f.headers && 0 < hs[k].height
    requires forall j | j in f.headers :: hs[j].height <= hs[k].height
    ensures !Passed(f.reached, hs[k].height)
  {
    if f.reached.Some? { assert hs[cps[f.reached.value]].height <= hs[k].height; }
  }

  /** The lowest saved headers, and the next one after them. */
  ghost predicate Follows(r: Rules, hs: Headers, part: Headers, k: Hash) {
    && Sub(part, hs) && k in hs && k !in part && k != r.Root() && hs[k].header.prev in part
    && forall j | j in part :: hs[j].height <= hs[k].height
  }

  lemma NextFollows(r: Rules, hs: Headers, best: seq<Hash>, s: seq<Hash>, n: nat)
    requires Rooted(r, hs) && Listed(hs, best, s) && 0 < n < |s|
    ensures Follows(r, hs, Upto(hs, s, n), s[n]) && Upto(hs, s, n)[s[n] := hs[s[n]]] == Upto(hs, s, n + 1)
  {
    ParentIsThere(r, hs, best, s, n);
    UptoGrows(hs, best, s, n);
    UptoHeights(hs, best, s, n);
  }

  lemma NextIsTaken(r: Rules, cps: Checkpoints, hs: Headers, f: Holding, k: Hash)
    requires Sound(r, hs) && Agreed(cps, hs) && Rooted(r, f.headers) && Frozen(r, cps, f)
    requires Follows(r, hs, f.headers, k)
    ensures Takes(r, cps, f, hs[k].header) && r.hash(hs[k].header) == k
    ensures Place(r, f.headers, hs[k].header) == f.headers[k := hs[k]]
  {
    LawfulInPart(r, hs, f.headers, k);
    assert Linked(r, hs, k);
    LaterIsHigher(r, cps, f, hs, k);
  }

  /** In a tree past a checkpoint, a block at or below it has every other such block it is as high as
      for an ancestor. */
  lemma FrozenIsAChain(r: Rules, cps: Checkpoints, f: Holding, k: Hash, j: Hash)
    requires Rooted(r, f.headers) && Frozen(r, cps, f) && k in f.headers && j in f.headers
    requires Passed(f.reached, f.headers[k].height) && f.headers[j].height <= f.headers[k].height
    ensures j in Chain(r, f.headers, k)
  {
    var cp := cps[f.reached.value];
    var top := Chain(r, f.headers, cp);
    ChainPrefix(r, f.headers, cp, f.headers[k].height);
    assert top[..f.headers[k].height + 1][f.headers[j].height] == j;
  }

  /** A checkpoint in the file finds nothing to prune: all that came before is its ancestry. */
  lemma NothingToPrune(r: Rules, cps: Checkpoints, f: Holding, g: Headers, k: Hash)
    requires Rooted(r, f.headers) && Frozen(r, cps, f) && Rooted(r, g) && Sub(g, f.headers) && k in g
    requires Passed(f.reached, g[k].height) && forall j | j in g :: g[j].height <= g[k].height
    ensures Ancestry(r, g, k) == g
  {
    ChainAgrees(r, g, f.headers, k);
    forall j | j in g ensures j in Chain(r, g, k) { FrozenIsAChain(r, cps, f, k, j); }
  }

  lemma NextTip(hs: Headers, s: seq<Hash>, n: nat, tip: Hash)
    requires 0 < n < |s| && (forall i | 0 <= i < |s| :: s[i] in hs) && FirstHeaviest(hs, s, n, tip)
    ensures FirstHeaviest(hs, s, n + 1, if hs[tip].work < hs[s[n]].work then s[n] else tip)
  {
    var m :| 0 <= m < n && s[m] == tip && (forall j | 0 <= j < m :: hs[s[j]].work < hs[tip].work)
             && (forall j | 0 <= j < n :: hs[s[j]].work <= hs[tip].work);
    if hs[tip].work < hs[s[n]].work {
      assert s[n] == s[n];
    } else {
      assert s[m] == tip;
    }
  }

  /** Taking the next header of the file adds it and nothing else, and moves the tip only to more work. */
  lemma NextGrows(r: Rules, cps: Checkpoints, f: Holding, part: Holding, k: Hash)
    requires Rooted(r, f.headers) && Frozen(r, cps, f) && Awaited(cps, f)
    requires Rooted(r, part.headers) && part.tip in part.headers && Follows(r, f.headers, part.headers, k)
    requires Takes(r, cps, part, f.headers[k].header) && r.hash(f.headers[k].header) == k
    requires Place(r, part.headers, f.headers[k].header) == part.headers[k := f.headers[k]]
    ensures Grow(r, cps, part, f.headers[k].header).headers == part.headers[k := f.headers[k]]
    ensures Grow(r, cps, part, f.headers[k].header).tip ==
            if f.headers[part.tip].work < f.headers[k].work then k else part.tip
  {
    var g := part.headers[k := f.headers[k]];
    assert Linked(r, f.headers, k);
    PlaceKeepsRooted(r, part.headers, f.headers[k].header);
    if g[k].height in cps {
      assert Passed(f.reached, g[k].height);
      NothingToPrune(r, cps, f, g, k);
      assert part.tip in Ancestry(r, g, k);
      ChainWork(r, g, k, g[part.tip].height);
    }
  }

  lemma NextReplays(r: Rules, cps: Checkpoints, f: Holding, best: seq<Hash>, s: seq<Hash>, n: nat, t: Tree)
    requires Inv(r, cps, f) && Listed(f.headers, best, s) && 0 < n < |s| && Replaying(r, cps, f, s, n, t)
    ensures var h := f.headers[s[n]].header;
            Judge(r, cps, t, h) == Accepted && Replaying(r, cps, f, s, n + 1, Insert(r, cps, t, h))
  {
    NextFollows(r, f.headers, best, s, n);
    NextIsTaken(r, cps, f.headers, t.holding, s[n]);
    NextGrows(r, cps, f, t.holding, s[n]);
    NextTip(f.headers, s, n, t.holding.tip);
    InsertKeepsInv(r, cps, t, f.headers[s[n]].header);
  }

  // ---- The whole file ------------------------------------------------------------------------

  lemma GenesisIsFirst(r: Rules, hs: Headers, best: seq<Hash>, s: seq<Hash>)
    requires Rooted(r, hs) && Listed(hs, best, s)
    ensures 0 < |s| && s[0] == r.Root() && hs[s[0]].header == r.genesis
  {
    var i := ListedAt(hs, best, s, r.Root());
    assert Linked(r, hs, s[0]) && Linked(r, hs, r.Root());
    assert 0 < i ==> Less(hs, best, s[0], s[i]);
  }

  ghost predicate AllTaken(vs: seq<Verdict>) {
    forall i | 0 <= i < |vs| :: vs[i] == if i == 0 then Known else Accepted
  }

  /** The genesis block is held already. */
  lemma GenesisReplays(r: Rules, cps: Checkpoints)
    ensures Replayed(r, cps, [r.genesis]) == Fresh(r, cps) && ReplayVerdicts(r, cps, [r.genesis]) == [Known]
  {
    FreshInv(r, cps);
    InsertOneMore(r, cps, Fresh(r, cps), [], r.genesis, [r.genesis]);
  }

  lemma FreshIsFirst(r: Rules, cps: Checkpoints, f: Holding, s: seq<Hash>)
    requires Rooted(r, f.headers) && 0 < |s| && s[0] == r.Root() && forall i | 0 <= i < |s| :: s[i] in f.headers
    ensures Replaying(r, cps, f, s, 1, Fresh(r, cps))
  {
    FreshInv(r, cps);
    assert Linked(r, f.headers, r.Root());
    assert s[..1] == [r.Root()];
    assert Upto(f.headers, s, 1) == Fresh(r, cps).holding.headers;
    assert s[0] == r.Root();
  }

  lemma FirstReplays(r: Rules, cps: Checkpoints, f: Holding, best: seq<Hash>, s: seq<Hash>)
    requires Rooted(r, f.headers) && Listed(f.headers, best, s)
    ensures 0 < |s| && Replaying(r, cps, f, s, 1, Replayed(r, cps, File(f.headers, s)[..1]))
    ensures AllTaken(ReplayVerdicts(r, cps, File(f.headers, s)[..1]))
  {
    GenesisIsFirst(r, f.headers, best, s);
    FreshIsFirst(r, cps, f, s);
    GenesisReplays(r, cps);
    assert File(f.headers, s)[..1] == [r.genesis];
  }

  lemma AllTakenMore(vs: seq<Verdict>, vs': seq<Verdict>)
    requires AllTaken(vs) && vs != [] && vs' == vs + [Accepted]
    ensures AllTaken(vs')
  {}

  lemma ReplayOneMore(r: Rules, cps: Checkpoints, file: seq<Header>, n: nat)
    requires n < |file|
    ensures Replayed(r, cps, file[..n + 1]) == Insert(r, cps, Replayed(r, cps, file[..n]), file[n])
    ensures ReplayVerdicts(r, cps, file[..n + 1]) ==
            ReplayVerdicts(r, cps, file[..n]) + [Judge(r, cps, Replayed(r, cps, file[..n]), file[n])]
  {
    FreshInv(r, cps);
    assert file[..n + 1] == file[..n] + [file[n]];
    InsertOneMore(r, cps, Fresh(r, cps), file[..n], file[n], file[..n + 1]);
  }

  lemma PrefixStep(r: Rules, cps: Checkpoints, f: Holding, best: seq<Hash>, s: seq<Hash>, n: nat)
    requires Inv(r, cps, f) && Listed(f.headers, best, s) && 0 < n < |s|
    requires Replaying(r, cps, f, s, n, Replayed(r, cps, File(f.headers, s)[..n]))
    requires AllTaken(ReplayVerdicts(r, cps, File(f.headers, s)[..n]))
    ensures Replaying(r, cps, f, s, n + 1, Replayed(r, cps, File(f.headers, s)[..n + 1]))
    ensures AllTaken(ReplayVerdicts(r, cps, File(f.headers, s)[..n + 1]))
  {
    var file := File(f.headers, s);
    NextReplays(r, cps, f, best, s, n, Replayed(r, cps, file[..n]));
    ReplayOneMore(r, cps, file, n);
    AllTakenMore(ReplayVerdicts(r, cps, file[..n]), ReplayVerdicts(r, cps, file[..n + 1]));
  }

  lemma {:induction false} PrefixReplays(r: Rules, cps: Checkpoints, f: Holding, best: seq<Hash>, s: seq<Hash>, n: nat)
    requires Inv(r, cps, f) && Listed(f.headers, best, s) && 0 < n <= |s|
    ensures Replaying(r, cps, f, s, n, Replayed(r, cps, File(f.headers, s)[..n]))
    ensures AllTaken(ReplayVerdicts(r, cps, File(f.headers, s)[..n]))
  {
    if n == 1 {
      FirstReplays(r, cps, f, best, s);
    } else {
      PrefixReplays(r, cps, f, best, s, n - 1);
      PrefixStep(r, cps, f, best, s, n - 1);
    }
  }

  lemma {:induction false} CountTaken(vs: seq<Verdict>)
    requires AllTaken(vs) && vs != []
    ensures Count(vs) == |vs| - 1 && FirstRefusal(vs).None?
  {
    if |vs| > 1 { CountTaken(vs[..|vs| - 1]); }
  }

  lemma ListedSize(hs: Headers, best: seq<Hash>, s: seq<Hash>)
    requires Listed(hs, best, s)
    ensures |s| == |hs|
  {
    forall i, j | 0 <= i < j < |s| ensures s[i] != s[j] { assert Less(hs, best, s[i], s[j]); }
    SetOfDistinct(s);
    assert ToSet(s) == hs.Keys;
  }

  /** What a tree reached is told by what it holds. */
  lemma ReachedIsTold(r: Rules, cps: Checkpoints, f: Holding, f': Holding)
    requires Inv(r, cps, f) && Inv(r, cps, f') && f.headers == f'.headers
    ensures f.reached.Some? ==> f'.reached.Some? && f.reached.value <= f'.reached.value
  {
    if f.reached.Some? {
      var k := cps[f.reached.value];
      assert Linked(r, f.headers, k);
      assert f.headers[k].height == f.reached.value;
    }
  }

  lemma WholeFileReplays(r: Rules, cps: Checkpoints, f: Holding, best: seq<Hash>, s: seq<Hash>)
    requires Inv(r, cps, f) && Listed(f.headers, best, s)
    ensures var t := Replayed(r, cps, File(f.headers, s));
            t.holding.headers == f.headers && FirstHeaviest(f.headers, s, |s|, t.holding.tip)
    ensures s != [] && AllTaken(ReplayVerdicts(r, cps, File(f.headers, s)))
  {
    GenesisIsFirst(r, f.headers, best, s);
    PrefixReplays(r, cps, f, best, s, |s|);
    WholePrefix(File(f.headers, s));
    WholePrefix(s);
    UptoAll(f.headers, best, s);
  }

  lemma UptoAll(hs: Headers, best: seq<Hash>, s: seq<Hash>)
    requires Listed(hs, best, s)
    ensures Upto(hs, s, |s|) == hs
  {
    WholePrefix(s);
  }

  lemma AllCounted(r: Rules, cps: Checkpoints, f: Holding, best: seq<Hash>, s: seq<Hash>)
    requires Listed(f.headers, best, s) && s != [] && AllTaken(ReplayVerdicts(r, cps, File(f.headers, s)))
    ensures var vs := ReplayVerdicts(r, cps, File(f.headers, s));
            FirstRefusal(vs).None? && 1 + Count(vs) == |f.headers|
  {
    CountTaken(ReplayVerdicts(r, cps, File(f.headers, s)));
    ListedSize(f.headers, best, s);
  }

  /** Saving a tree and loading it with the same checkpoints skips nothing, prunes nothing, and
      gives back every header with its height and work, the checkpoint reached and the work of the tip. */
  lemma LoadRestores(r: Rules, cps: Checkpoints, f: Holding, best: seq<Hash>, s: seq<Hash>)
    requires Inv(r, cps, f) && Listed(f.headers, best, s)
    ensures var f' := Replayed(r, cps, File(f.headers, s)).holding;
            && f'.headers == f.headers && f'.reached == f.reached
            && f'.headers[f'.tip].work == f.headers[f.tip].work
    ensures var vs := ReplayVerdicts(r, cps, File(f.headers, s));
            FirstRefusal(vs).None? && 1 + Count(vs) == |f.headers|
  {
    WholeFileReplays(r, cps, f, best, s);
    AllCounted(r, cps, f, best, s);
    var f' := Replayed(r, cps, File(f.headers, s)).holding;
    ReachedIsTold(r, cps, f, f');
    ReachedIsTold(r, cps, f', f);
  }

  /** With the most work first reached at `tip`, in saving order: nothing as heavy sits lower. */
  lemma FirstIsLowest(hs: Headers, best: seq<Hash>, s: seq<Hash>, tip: Hash, k: Hash)
    requires Listed(hs, best, s) && FirstHeaviest(hs, s, |s|, tip) && tip in hs && k in hs && hs[k].work == hs[tip].work
    ensures tip == k || Less(hs, best, tip, k)
  {
    var m :| 0 <= m < |s| && s[m] == tip && forall j | 0 <= j < m :: hs[s[j]].work < hs[tip].work;
    var i := ListedAt(hs, best, s, k);
    if m < i { assert Less(hs, best, s[m], s[i]); }
  }

  /** The tip, and with it the best chain, comes back exactly if no block as heavy sits lower: of the
      blocks as heavy as the tip the lowest is replayed first, and at the tip's own height the tip is. */
  lemma LoadRestoresTheTip(r: Rules, cps: Checkpoints, f: Holding, s: seq<Hash>)
    requires Inv(r, cps, f) && Listed(f.headers, Chain(r, f.headers, f.tip), s)
    ensures Replayed(r, cps, File(f.headers, s)).holding.tip == f.tip <==>
            forall k | k in f.headers && f.headers[k].work == f.headers[f.tip].work ::
              f.headers[f.tip].height <= f.headers[k].height
  {
    var best := Chain(r, f.headers, f.tip);
    WholeFileReplays(r, cps, f, best, s);
    LoadRestores(r, cps, f, best, s);
    var tip' := Replayed(r, cps, File(f.headers, s)).holding.tip;
    FirstIsLowest(f.headers, best, s, tip', f.tip);
    assert best[f.headers[f.tip].height] == f.tip;
    assert tip' in best ==> best[f.headers[tip'].height] == tip';
    forall k | tip' == f.tip && k in f.headers && f.headers[k].work == f.headers[f.tip].work
      ensures f.headers[f.tip].height <= f.headers[k].height
    {
      FirstIsLowest(f.headers, best, s, tip', k);
    }
  }

  // ---- A tip that does not come back -------------------------------------------------------

  /** The block with body 3 has two units of work, any other one. */
  function TieRules(): Rules { OpenRules((h: Header) => if h.body == 3 then 2 else 1) }

  /** One block on the genesis block and one on that, and then one as heavy as the two of them. */
  function TieBlocks(r: Rules): seq<Header> {
    var first := Header(r.Root(), 0, 1);
    [first, Header(r.hash(first), 0, 2), Header(r.Root(), 0, 3)]
  }

  lemma JoinsOpenTree(r: Rules, t: Tree, h: Header, k: Hash)
    requires LetsAllIn(r) && TreeInv(r, map[], t) && t.holding.reached.None? && h.prev in t.holding.headers
    requires k == r.hash(h) && k !in t.holding.headers
    ensures var f, f' := t.holding, Insert(r, map[], t, h).holding;
            && f'.headers == f.headers[k := Child(r, f.headers, h)] && f'.reached.None?
            && f'.tip == if f.headers[f.tip].work < f'.headers[k].work then k else f.tip
  {}

  lemma GrowsByOne(r: Rules, t: Tree, s: seq<Header>, h: Header, s': seq<Header>, f: Holding, f': Holding)
    requires LetsAllIn(r) && TreeInv(r, map[], t) && s' == s + [h]
    requires f == InsertAll(r, map[], t, s).holding && f' == InsertAll(r, map[], t, s').holding && f.reached.None?
    requires h.prev in f.headers && r.hash(h) !in f.headers
    ensures f'.headers == f.headers[r.hash(h) := Child(r, f.headers, h)] && f'.reached.None?
    ensures f'.tip == if f.headers[f.tip].work < f'.headers[r.hash(h)].work then r.hash(h) else f.tip
  {
    InsertOneMore(r, map[], t, s, h, s');
    JoinsOpenTree(r, InsertAll(r, map[], t, s), h, r.hash(h));
  }

  /** One block on the genesis block, and one on that. */
  lemma TwoHold(r: Rules, t: Tree, a: Header, b: Header, f: Holding)
    requires LetsAllIn(r) && t == Fresh(r, map[]) && TreeInv(r, map[], t)
    requires f == InsertAll(r, map[], t, [a, b]).holding && a.prev == r.Root() && b.prev == r.hash(a)
    requires r.Root() != r.hash(a) && r.Root() != r.hash(b) && r.hash(a) != r.hash(b)
    ensures f.reached.None? && f.tip == r.hash(b) && f.headers.Keys == {r.Root(), r.hash(a), r.hash(b)}
    ensures f.headers[r.Root()].height == 0 && f.headers[f.tip].height == 2
    ensures f.headers[f.tip].work == f.headers[r.Root()].work + r.work(a) + r.work(b)
  {
    var f0, f1 := InsertAll(r, map[], t, []).holding, InsertAll(r, map[], t, [a]).holding;
    GrowsByOne(r, t, [], a, [a], f0, f1);
    GrowsByOne(r, t, [a], b, [a, b], f1, f);
  }

  /** And then a third on the genesis block, as heavy as the two. */
  lemma TieHolds(r: Rules, t: Tree, a: Header, b: Header, c: Header, f: Holding)
    requires LetsAllIn(r) && t == Fresh(r, map[]) && TreeInv(r, map[], t)
    requires f == InsertAll(r, map[], t, [a, b, c]).holding
    requires a.prev == r.Root() && b.prev == r.hash(a) && c.prev == r.Root()
    requires r.Root() != r.hash(a) && r.Root() != r.hash(b) && r.Root() != r.hash(c)
    requires r.hash(a) != r.hash(b) && r.hash(a) != r.hash(c) && r.hash(b) != r.hash(c)
    requires r.work(c) == r.work(a) + r.work(b)
    ensures f.tip == r.hash(b) && f.tip in f.headers && r.hash(c) in f.headers
    ensures f.headers[f.tip].height == 2 && f.headers[r.hash(c)].height == 1
    ensures f.headers[r.hash(c)].work == f.headers[f.tip].work
  {
    var f2 := InsertAll(r, map[], t, [a, b]).holding;
    TwoHold(r, t, a, b, f2);
    GrowsByOne(r, t, [a, b], c, [a, b, c], f2, f);
  }

  /** The tree those blocks make. */
  ghost function TieTree(r: Rules): (t: Tree)
    ensures TreeInv(r, map[], t)
  {
    FreshInv(r, map[]);
    InsertAll(r, map[], Fresh(r, map[]), TieBlocks(r))
  }

  lemma TieIsHeld(r: Rules)
    requires r == TieRules()
    ensures r.CollisionFree()
    ensures var f, k := TieTree(r).holding, r.hash(TieBlocks(r)[2]);
            && f.tip in f.headers && k in f.headers && f.headers[f.tip].height == 2 && f.headers[k].height == 1
            && f.headers[k].work == f.headers[f.tip].work
  {
    OpenRulesAreCollisionFree(r.work);
    OpenRulesLetAllIn(r.work);
    FreshInv(r, map[]);
    var blocks := TieBlocks(r);
    TieHolds(r, Fresh(r, map[]), blocks[0], blocks[1], blocks[2], TieTree(r).holding);
  }

  /** However that tree is saved, it does not come back on the tip it had. */
  lemma TheLowerOfATieWins(r: Rules, s: seq<Hash>)
    requires r == TieRules()
    requires var f := TieTree(r).holding; Listed(f.headers, Chain(r, f.headers, f.tip), s)
    ensures r.CollisionFree()
    ensures Replayed(r, map[], File(TieTree(r).holding.headers, s)).holding.tip != TieTree(r).holding.tip
  {
    TieIsHeld(r);
    LoadRestoresTheTip(r, map[], TieTree(r).holding, s);
  }
}
