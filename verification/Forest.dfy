/**
 The block-header forest: what a header is, what the network's rules say about it, and the
 shape every set of accepted headers has. Hashing, work and the difficulty arithmetic are
 parameters (`Rules`); nothing below depends on how they are computed.
 */
module Forest {

  type Hash = nat
  type pos = n: int | 0 < n witness 1

  /** A block header: the parent it names, its compact target, and everything else. */
  datatype Header = Header(prev: Hash, bits: nat, body: nat)

  /** A network's rules, as functions of headers. `retarget(first, last)` is the compact target
      the difficulty adjustment asks of the block after an epoch, `meets(h, bits)` the proof-of-work
      check of `h` against it. */
  datatype Rules = Rules(
    genesis: Header,
    hash: Header -> Hash,
    work: Header -> pos,
    target: nat -> nat,
    maxTarget: nat,
    retarget: (Header, Header) -> nat,
    meets: (Header, nat) -> bool,
    difficulty: Header -> real,
    minDifficultyAllowed: bool)
  {
    function Root(): Hash { hash(genesis) }

    ghost predicate CollisionFree() {
      forall a: Header, b: Header {:trigger hash(a), hash(b)} :: hash(a) == hash(b) ==> a == b
    }
  }

  datatype Entry = Entry(header: Header, height: nat, work: nat)

  type Headers = map<Hash, Entry>

  const EPOCH := 2016

  // ---- Shape -------------------------------------------------------------------------------

  /** `k` is filed under its own hash, one above its parent, with its parent's work plus its own. */
  ghost predicate Linked(r: Rules, hs: Headers, k: Hash)
    requires k in hs
  {
    && r.hash(hs[k].header) == k
    && if k == r.Root() then hs[k] == Entry(r.genesis, 0, r.work(r.genesis))
       else
         var p := hs[k].header.prev;
         p in hs && hs[k].height == hs[p].height + 1 && hs[k].work == hs[p].work + r.work(hs[k].header)
  }

  /** The headers form one tree hanging from the genesis block. */
  ghost predicate Rooted(r: Rules, hs: Headers) {
    && r.Root() in hs
    && forall k {:trigger Linked(r, hs, k)} | k in hs :: Linked(r, hs, k)
  }

  /** The ancestry of `k`, genesis first, `k` last: entry `i` sits at height `i`. */
  ghost function Chain(r: Rules, hs: Headers, k: Hash): (c: seq<Hash>)
    requires Rooted(r, hs) && k in hs
    ensures |c| == hs[k].height + 1 && c[|c| - 1] == k && c[0] == r.Root()
    ensures forall i | 0 <= i < |c| :: c[i] in hs && hs[c[i]].height == i
    decreases hs[k].height
  {
    assert Linked(r, hs, k);
    if k == r.Root() then [k] else Chain(r, hs, hs[k].header.prev) + [k]
  }

  lemma {:induction false} ChainPrefix(r: Rules, hs: Headers, k: Hash, i: nat)
    requires Rooted(r, hs) && k in hs && i <= hs[k].height
    ensures Chain(r, hs, Chain(r, hs, k)[i]) == Chain(r, hs, k)[..i + 1]
    decreases hs[k].height
  {
    var c := Chain(r, hs, k);
    if i == hs[k].height {
      assert c[..i + 1] == c;
    } else {
      assert Linked(r, hs, k);
      var p := hs[k].header.prev;
      ChainPrefix(r, hs, p, i);
      assert c[..i + 1] == Chain(r, hs, p)[..i + 1];
    }
  }

  /** Consecutive entries of an ancestry are parent and child. */
  lemma ChainStep(r: Rules, hs: Headers, k: Hash, i: nat)
    requires Rooted(r, hs) && k in hs && i < hs[k].height
    ensures hs[Chain(r, hs, k)[i + 1]].header.prev == Chain(r, hs, k)[i]
  {
    var c := Chain(r, hs, k);
    ChainPrefix(r, hs, k, i + 1);
    assert Linked(r, hs, c[i + 1]);
    assert c[..i + 2][i] == c[i];
  }

  /** Work strictly increases along an ancestry. */
  lemma {:induction false} ChainWork(r: Rules, hs: Headers, k: Hash, i: nat)
    requires Rooted(r, hs) && k in hs && i < hs[k].height
    ensures hs[Chain(r, hs, k)[i]].work < hs[k].work
    decreases hs[k].height
  {
    assert Linked(r, hs, k);
    var p := hs[k].header.prev;
    if i < hs[p].height {
      ChainWork(r, hs, p, i);
    }
  }

  ghost predicate Sub(a: Headers, b: Headers) {
    forall k | k in a :: k in b && b[k] == a[k]
  }

  /** An ancestry is read off entries alone, so two forests that agree on it read the same one. */
  lemma {:induction false} ChainAgrees(r: Rules, a: Headers, b: Headers, k: Hash)
    requires Rooted(r, a) && Rooted(r, b) && k in a
    requires forall j | j in Chain(r, a, k) :: j in b && b[j] == a[j]
    ensures k in b && Chain(r, b, k) == Chain(r, a, k)
    decreases a[k].height
  {
    assert k in Chain(r, a, k);
    assert Linked(r, a, k);
    if k != r.Root() {
      ChainAgrees(r, a, b, a[k].header.prev);
    }
  }

  /** Collision-free hashes make a block's place in the tree a property of the block: two forests
      under the same rules file every block they share under the same entry. */
  lemma {:induction false} SharedEntriesAgree(r: Rules, a: Headers, b: Headers, k: Hash)
    requires r.CollisionFree() && Rooted(r, a) && Rooted(r, b) && k in a && k in b
    ensures a[k] == b[k]
    ensures Chain(r, a, k) == Chain(r, b, k)
    decreases a[k].height
  {
    assert Linked(r, a, k) && Linked(r, b, k);
    assert r.hash(a[k].header) == r.hash(b[k].header);
    if k != r.Root() {
      SharedEntriesAgree(r, a, b, a[k].header.prev);
    }
  }

  // ---- Legality ----------------------------------------------------------------------------

  /** The compact target asked of a child of `p`: its parent's, or at an epoch boundary what the
      adjustment over the ancestry of `p` gives. */
  ghost function ExpectedBits(r: Rules, hs: Headers, p: Hash): nat
    requires Rooted(r, hs) && p in hs
  {
    var height := hs[p].height + 1;
    if height % EPOCH == 0
    then r.retarget(hs[Chain(r, hs, p)[height - EPOCH]].header, hs[p].header)
    else hs[p].header.bits
  }

  ghost predicate Lawful(r: Rules, hs: Headers, h: Header)
    requires Rooted(r, hs) && h.prev in hs
  {
    r.target(h.bits) <= r.maxTarget && r.meets(h, ExpectedBits(r, hs, h.prev))
  }

  ghost predicate Legal(r: Rules, hs: Headers, k: Hash)
    requires Rooted(r, hs) && k in hs
  {
    assert Linked(r, hs, k);
    k != r.Root() ==> Lawful(r, hs, hs[k].header)
  }

  /** Every header but the genesis block passed the proof-of-work rules on its own ancestry. */
  ghost predicate Sound(r: Rules, hs: Headers) {
    Rooted(r, hs) && forall k {:trigger Legal(r, hs, k)} | k in hs :: Legal(r, hs, k)
  }

  lemma LawfulAgrees(r: Rules, a: Headers, b: Headers, h: Header)
    requires Rooted(r, a) && Rooted(r, b) && h.prev in a
    requires forall j | j in Chain(r, a, h.prev) :: j in b && b[j] == a[j]
    ensures h.prev in b && (Lawful(r, a, h) <==> Lawful(r, b, h))
  {
    ChainAgrees(r, a, b, h.prev);
    var c := Chain(r, a, h.prev);
    assert forall i | 0 <= i < |c| :: c[i] in c;
  }

  // ---- Growth ------------------------------------------------------------------------------

  function Child(r: Rules, hs: Headers, h: Header): Entry
    requires h.prev in hs
  {
    Entry(h, hs[h.prev].height + 1, hs[h.prev].work + r.work(h))
  }

  function Place(r: Rules, hs: Headers, h: Header): Headers
    requires h.prev in hs
  {
    hs[r.hash(h) := Child(r, hs, h)]
  }

  lemma PlaceKeepsRooted(r: Rules, hs: Headers, h: Header)
    requires Rooted(r, hs) && h.prev in hs && r.hash(h) !in hs
    ensures Rooted(r, Place(r, hs, h)) && Sub(hs, Place(r, hs, h))
    ensures Chain(r, Place(r, hs, h), r.hash(h)) == Chain(r, hs, h.prev) + [r.hash(h)]
    ensures forall k | k in hs :: Chain(r, Place(r, hs, h), k) == Chain(r, hs, k)
  {
    var g := Place(r, hs, h);
    forall k | k in g ensures Linked(r, g, k) {
      if k in hs { assert Linked(r, hs, k); }
    }
    forall k | k in hs ensures Chain(r, g, k) == Chain(r, hs, k) {
      ChainAgrees(r, hs, g, k);
    }
  }

  lemma PlaceKeepsSound(r: Rules, hs: Headers, h: Header)
    requires Sound(r, hs) && h.prev in hs && r.hash(h) !in hs && Lawful(r, hs, h)
    ensures Sound(r, Place(r, hs, h))
  {
    var g := Place(r, hs, h);
    PlaceKeepsRooted(r, hs, h);
    LawfulAgrees(r, hs, g, h);
    forall k | k in g ensures Legal(r, g, k) {
      if k in hs {
        assert Legal(r, hs, k) && Linked(r, hs, k);
        if k != r.Root() { LawfulAgrees(r, hs, g, hs[k].header); }
      }
    }
  }

  /** Only the ancestry of `k`. */
  ghost function Ancestry(r: Rules, hs: Headers, k: Hash): (a: Headers)
    requires Rooted(r, hs) && k in hs
  {
    map j | j in hs && j in Chain(r, hs, k) :: hs[j]
  }

  lemma AncestryKeepsSound(r: Rules, hs: Headers, k: Hash)
    requires Sound(r, hs) && k in hs
    ensures Sound(r, Ancestry(r, hs, k)) && Chain(r, Ancestry(r, hs, k), k) == Chain(r, hs, k)
    ensures forall j | j in Ancestry(r, hs, k) :: j == Chain(r, hs, k)[hs[j].height]
  {
    var a := Ancestry(r, hs, k);
    var c := Chain(r, hs, k);
    forall i | 0 <= i < |c| ensures c[i] in a && Linked(r, a, c[i]) {
      assert c[i] in c && Linked(r, hs, c[i]);
      if 0 < i {
        ChainStep(r, hs, k, i - 1);
        assert c[i - 1] in c;
      }
    }
    assert Rooted(r, a) by {
      forall j | j in a ensures Linked(r, a, j) { assert c[hs[j].height] == j; }
    }
    forall j | j in a ensures Legal(r, a, j) {
      assert Legal(r, hs, j) && Linked(r, hs, j) && Linked(r, a, j);
      if j != r.Root() {
        ChainAgrees(r, a, hs, a[j].header.prev);
        LawfulAgrees(r, a, hs, a[j].header);
      }
    }
    ChainAgrees(r, hs, a, k);
  }
}
