/**
 The ends of the branches a tree holds.
 */
module ChainTips {
  import opened Forest

  datatype ChainTip = ChainTip(hash: Hash, height: nat, branchLen: nat, active: bool)

  /** No header held names `k` as its parent. */
  ghost predicate Childless(hs: Headers, k: Hash) {
    forall j | j in hs && 0 < hs[j].height :: hs[j].header.prev != k
  }

  ghost function Ends(hs: Headers): set<Hash> {
    set k | k in hs && Childless(hs, k)
  }

  /** `len` blocks back from `k` is where its branch leaves the best chain: that block is on it, and
      nothing of the branch above it is. */
  ghost predicate ForksAt(r: Rules, hs: Headers, best: seq<Hash>, k: Hash, len: nat)
    requires Rooted(r, hs) && k in hs
  {
    var c := Chain(r, hs, k);
    && len <= hs[k].height
    && hs[k].height - len < |best| && best[hs[k].height - len] == c[hs[k].height - len]
    && forall i | hs[k].height - len < i <= hs[k].height :: i < |best| ==> best[i] != c[i]
  }

  ghost predicate Describes(r: Rules, hs: Headers, best: seq<Hash>, tip: Hash, t: ChainTip)
    requires Rooted(r, hs)
  {
    && t.hash in hs && Childless(hs, t.hash) && t.height == hs[t.hash].height
    && ForksAt(r, hs, best, t.hash, t.branchLen) && (t.active <==> t.hash == tip)
  }

  /** The heaviest block has no children: they would be heavier. */
  lemma HeaviestIsChildless(r: Rules, hs: Headers, tip: Hash)
    requires Rooted(r, hs) && tip in hs && forall k | k in hs :: hs[k].work <= hs[tip].work
    ensures Childless(hs, tip)
  {
    forall j | j in hs && 0 < hs[j].height ensures hs[j].header.prev != tip { assert Linked(r, hs, j); }
  }

  /** `tips` describes each of `done` once, and nothing else. */
  ghost predicate Reported(r: Rules, hs: Headers, best: seq<Hash>, tip: Hash, done: set<Hash>, tips: seq<ChainTip>)
    requires Rooted(r, hs)
  {
    && (forall i | 0 <= i < |tips| :: tips[i].hash in done && Describes(r, hs, best, tip, tips[i]))
    && (forall i, j | 0 <= i < j < |tips| :: tips[i].hash != tips[j].hash)
    && (forall k | k in done :: exists i :: 0 <= i < |tips| && tips[i].hash == k)
  }

  lemma FoundInLonger(tips: seq<ChainTip>, t: ChainTip, k: Hash)
    requires k == t.hash || exists i :: 0 <= i < |tips| && tips[i].hash == k
    ensures exists i :: 0 <= i < |tips + [t]| && (tips + [t])[i].hash == k
  {
    if k == t.hash {
      assert (tips + [t])[|tips|].hash == k;
    } else {
      var i :| 0 <= i < |tips| && tips[i].hash == k;
      assert (tips + [t])[i].hash == k;
    }
  }

  lemma ReportMore(r: Rules, hs: Headers, best: seq<Hash>, tip: Hash, done: set<Hash>, tips: seq<ChainTip>, t: ChainTip)
    requires Rooted(r, hs) && Reported(r, hs, best, tip, done, tips)
    requires t.hash !in done && Describes(r, hs, best, tip, t)
    ensures Reported(r, hs, best, tip, done + {t.hash}, tips + [t])
  {
    forall k | k in done + {t.hash} ensures exists i :: 0 <= i < |tips + [t]| && (tips + [t])[i].hash == k {
      FoundInLonger(tips, t, k);
    }
  }

  lemma OneIsActive(r: Rules, hs: Headers, best: seq<Hash>, tip: Hash, done: set<Hash>, tips: seq<ChainTip>)
    requires Rooted(r, hs) && Reported(r, hs, best, tip, done, tips) && tip in done
    ensures exists i :: 0 <= i < |tips| && tips[i].active && tips[i].hash == tip
                        && forall j | 0 <= j < |tips| && j != i :: !tips[j].active
  {
    var i :| 0 <= i < |tips| && tips[i].hash == tip;
    assert Describes(r, hs, best, tip, tips[i]);
    forall j | 0 <= j < |tips| && j != i ensures !tips[j].active {
      assert Describes(r, hs, best, tip, tips[j]) && tips[j].hash != tips[i].hash;
    }
  }
}
