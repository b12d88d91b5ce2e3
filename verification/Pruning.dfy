/**
 What is left of a forest when everything that is not comparable with one block goes.
 */
module Pruning {
  import opened Basics
  import opened Forest

  /** `k` is an ancestor of `cp`, or `cp` of `k`. */
  ghost predicate Kept(r: Rules, hs: Headers, cp: Hash, k: Hash)
    requires Rooted(r, hs) && cp in hs && k in hs
  {
    k in Chain(r, hs, cp) || cp in Chain(r, hs, k)
  }

  ghost function Survivors(r: Rules, hs: Headers, cp: Hash): Headers
    requires Rooted(r, hs) && cp in hs
  {
    map k | k in hs && Kept(r, hs, cp, k) :: hs[k]
  }

  ghost predicate PrunedTo(r: Rules, hs: Headers, cp: Hash, g: Headers)
    requires Rooted(r, hs) && cp in hs
  {
    g == Survivors(r, hs, cp)
  }

  lemma KeptBelow(r: Rules, hs: Headers, cp: Hash, k: Hash)
    requires Rooted(r, hs) && cp in hs && k in hs && hs[k].height <= hs[cp].height
    ensures Kept(r, hs, cp, k) <==> k in Chain(r, hs, cp)
  {
    if cp in Chain(r, hs, k) {
      assert Chain(r, hs, k)[hs[cp].height] == cp;
      assert cp == k;
    }
  }

  /** Above the block, a header is kept exactly if its parent is. */
  lemma KeptAbove(r: Rules, hs: Headers, cp: Hash, k: Hash)
    requires Rooted(r, hs) && cp in hs && k in hs && hs[cp].height < hs[k].height
    ensures hs[k].header.prev in hs
    ensures Kept(r, hs, cp, k) <==> Kept(r, hs, cp, hs[k].header.prev)
  {
    assert Linked(r, hs, k);
    var p := hs[k].header.prev;
    assert Chain(r, hs, k) == Chain(r, hs, p) + [k];
    assert k !in Chain(r, hs, cp);
    if p in Chain(r, hs, cp) {
      assert hs[p].height == hs[cp].height;
      assert Chain(r, hs, cp)[hs[p].height] == p;
    }
  }

  lemma SurvivorsRooted(r: Rules, hs: Headers, cp: Hash)
    requires Rooted(r, hs) && cp in hs
    ensures Rooted(r, Survivors(r, hs, cp)) && cp in Survivors(r, hs, cp)
  {
    var g := Survivors(r, hs, cp);
    var c := Chain(r, hs, cp);
    assert c[0] in c && c[|c| - 1] in c;
    forall k | k in g ensures Linked(r, g, k) {
      assert Linked(r, hs, k);
      if k != r.Root() {
        if hs[cp].height < hs[k].height {
          KeptAbove(r, hs, cp, k);
        } else {
          KeptBelow(r, hs, cp, k);
          assert c[hs[k].height] == k;
          ChainStep(r, hs, cp, hs[k].height - 1);
          assert c[hs[k].height - 1] in c;
        }
      }
    }
  }

  /** Nothing above the block: the survivors are its ancestry. */
  lemma SurvivorsOfTheHighest(r: Rules, hs: Headers, cp: Hash)
    requires Rooted(r, hs) && cp in hs && forall k | k in hs :: hs[k].height <= hs[cp].height
    ensures Survivors(r, hs, cp) == Ancestry(r, hs, cp)
  {
    forall k | k in hs ensures Kept(r, hs, cp, k) <==> k in Chain(r, hs, cp) {
      KeptBelow(r, hs, cp, k);
    }
  }

  /** Part-way through dropping orphans: what is kept, and what is still to be looked at. */
  ghost predicate Partly(hs: Headers, kept: set<Hash>, above: set<Hash>, g: Headers) {
    above <= hs.Keys && g.Keys == kept + above && Sub(g, hs)
  }

  lemma PartlyStart(r: Rules, hs: Headers, cp: Hash, above: set<Hash>, g: Headers)
    requires Rooted(r, hs) && cp in hs
    requires g == map k | k in hs && (hs[cp].height < hs[k].height || k in Chain(r, hs, cp)) :: hs[k]
    requires above == set k | k in g && hs[cp].height < hs[k].height
    ensures Partly(hs, Survivors(r, hs, cp).Keys, above, g)
  {
    var kept := Survivors(r, hs, cp).Keys;
    forall k ensures k in g <==> k in kept || k in above {
      if k in hs && hs[k].height <= hs[cp].height { KeptBelow(r, hs, cp, k); }
    }
  }

  lemma PartlyStep(hs: Headers, kept: set<Hash>, above: set<Hash>, g: Headers, k: Hash)
    requires Partly(hs, kept, above, g) && k in above && hs[k].header.prev !in above
    requires k in kept <==> hs[k].header.prev in kept
    ensures Partly(hs, kept, above - {k}, if hs[k].header.prev in g then g else g - {k})
  {}

  lemma KeptWithItsParent(r: Rules, hs: Headers, cp: Hash, k: Hash)
    requires Rooted(r, hs) && cp in hs && k in hs && hs[cp].height < hs[k].height
    ensures hs[k].header.prev in hs && hs[hs[k].header.prev].height < hs[k].height
    ensures k in Survivors(r, hs, cp) <==> hs[k].header.prev in Survivors(r, hs, cp)
  {
    KeptAbove(r, hs, cp, k);
    assert Linked(r, hs, k);
  }

  lemma {:induction false} LowestExists(hs: Headers, s: set<Hash>) returns (k: Hash)
    requires s != {} && forall x | x in s :: x in hs
    ensures k in s && forall x | x in s :: hs[k].height <= hs[x].height
    decreases s
  {
    k :| k in s;
    if s != {k} {
      var j := LowestExists(hs, s - {k});
      if hs[j].height < hs[k].height { k := j; }
    }
  }

  lemma {:induction false} HeaviestExists(hs: Headers, s: set<Hash>) returns (k: Hash)
    requires s != {} && forall x | x in s :: x in hs
    ensures k in s && forall x | x in s :: hs[x].work <= hs[k].work
    decreases s
  {
    k :| k in s;
    if s != {k} {
      var j := HeaviestExists(hs, s - {k});
      if hs[k].work < hs[j].work { k := j; }
    }
  }

  lemma SubmapSize(a: Headers, b: Headers)
    requires Sub(a, b)
    ensures |a| <= |b| && (|a| == |b| ==> a == b)
  {
    assert a.Keys <= b.Keys;
    SubsetSize(a.Keys, b.Keys);
  }

  lemma SurvivorsOfOne(r: Rules, hs: Headers, k: Hash, g: Headers)
    requires Rooted(r, hs) && k in hs && (forall j | j in hs :: j == k) && PrunedTo(r, hs, k, g)
    ensures g == hs
  {
    assert Chain(r, hs, k)[|Chain(r, hs, k)| - 1] in Chain(r, hs, k);
  }
}
