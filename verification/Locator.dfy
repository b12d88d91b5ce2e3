/**
 Block locators: the heights one names, and what a peer finds with it.
 */
module Locator {
  import opened Basics
  import opened Forest

  /** The step after `step`: one more up to sixteen, then double. */
  function NextStep(step: nat): nat { if step < 16 then step + 1 else step * 2 }

  function StepDown(height: nat, step: nat): nat { if step < height then height - step else 0 }

  /** The heights a locator names from `height` down. */
  function Heights(height: nat, step: nat): (s: seq<nat>)
    requires 0 < step
    ensures |s| > 0 && s[0] == height && s[|s| - 1] == 0
    decreases height
  {
    if height == 0 then [0] else [height] + Heights(StepDown(height, step), NextStep(step))
  }

  /** Strictly down, from where it starts to genesis. */
  lemma {:induction false} HeightsDescend(height: nat, step: nat)
    requires 0 < step
    ensures forall i, j | 0 <= i < j < |Heights(height, step)| :: Heights(height, step)[j] < Heights(height, step)[i]
    ensures forall i | 0 <= i < |Heights(height, step)| :: Heights(height, step)[i] <= height
    decreases height
  {
    if 0 < height { HeightsDescend(StepDown(height, step), NextStep(step)); }
  }

  /** The chain at each height of a locator from `top`. */
  method NameHeights(chain: seq<Hash>, top: nat) returns (locator: seq<Hash>)
    requires |chain| == top + 1
    ensures |locator| == |Heights(top, 1)|
    ensures forall i | 0 <= i < |locator| :: Heights(top, 1)[i] <= top && locator[i] == chain[Heights(top, 1)[i]]
  {
    ghost var all := Heights(top, 1);
    locator := [];
    var height: nat, step: nat := top, 1;
    while true
      invariant height <= top && 0 < step && |locator| <= |all|
      invariant all[|locator|..] == Heights(height, step)
      invariant forall i | 0 <= i < |locator| :: all[i] <= top && locator[i] == chain[all[i]]
      decreases height
    {
      assert all[|locator|] == height;
      locator := locator + [chain[height]];
      if height == 0 {
        break;
      }
      assert all[|locator|..] == all[|locator| - 1..][1..];
      height, step := StepDown(height, step), NextStep(step);
    }
  }

  // ---- Length ------------------------------------------------------------------------------

  lemma {:induction false} DoublingIsShort(height: nat, step: nat, k: nat)
    requires 16 <= step && height <= step * (Pow2(k) - 1)
    ensures |Heights(height, step)| <= k + 1
    decreases height
  {
    if 0 < height {
      assert k > 0;
      calc {
        step * 2 * (Pow2(k - 1) - 1);
        step * (2 * Pow2(k - 1)) - step * 2;
        step * Pow2(k) - step - step;
        step * (Pow2(k) - 1) - step;
      }
      if step < height {
        DoublingIsShort(height - step, step * 2, k - 1);
      } else {
        assert Heights(0, step * 2) == [0];
      }
    }
  }

  /** What the steps from `step` to fifteen cover. */
  function Slow(step: nat): nat
    requires step <= 16
    decreases 16 - step
  {
    if step == 16 then 0 else step + Slow(step + 1)
  }

  lemma {:induction false} SlowStartIsShort(height: nat, step: nat)
    requires 0 < step <= 16 && height <= 16 * (Pow2(28) - 1) + Slow(step)
    ensures |Heights(height, step)| <= 45 - step
    decreases 16 - step
  {
    if step == 16 {
      DoublingIsShort(height, 16, 28);
    } else if step < height {
      SlowStartIsShort(height - step, step + 1);
    } else if 0 < height {
      assert Heights(0, step + 1) == [0];
    }
  }

  lemma PowersOfTwo()
    ensures Pow2(28) == 0x1000_0000
  {
    assert Pow2(7) == 128;
    assert Pow2(14) == 128 * 128;
    assert Pow2(21) == 128 * 128 * 128;
  }

  /** No height a 32-bit number can hold makes a locator longer than 44 entries. */
  lemma LocatorIsShort(height: nat)
    requires height < 0x1_0000_0000
    ensures |Heights(height, 1)| <= 44
  {
    PowersOfTwo();
    assert Slow(8) == 92;
    assert Slow(1) == 120;
    SlowStartIsShort(height, 1);
  }

  // ---- Reach -------------------------------------------------------------------------------

  /** Entry `i` is the first at or below `fork`. */
  ghost predicate FirstAtOrBelow(s: seq<nat>, fork: nat, i: nat) {
    i < |s| && s[i] <= fork && forall j | 0 <= j < i :: fork < s[j]
  }

  lemma {:induction false} ReachFrom(height: nat, step: nat, top: nat, fork: nat) returns (i: nat)
    requires 0 < step && fork < height <= top && step <= top - height + 1
    ensures FirstAtOrBelow(Heights(height, step), fork, i)
    ensures fork - Heights(height, step)[i] < top - fork
    decreases height
  {
    var next := StepDown(height, step);
    var rest := Heights(next, NextStep(step));
    assert Heights(height, step) == [height] + rest;
    if fork < next {
      i := ReachFrom(next, NextStep(step), top, fork);
      i := i + 1;
    } else {
      i := 1;
    }
  }

  /** A fork below the tip is matched fewer blocks below it than it lies below the tip. */
  lemma LocatorReaches(tip: nat, fork: nat) returns (i: nat)
    requires fork < tip
    ensures FirstAtOrBelow(Heights(tip, 1), fork, i)
    ensures fork - Heights(tip, 1)[i] < tip - fork
  {
    i := ReachFrom(tip, 1, tip, fork);
  }

  /** How far below the tip a step of `step` is taken from: the steps up to sixteen, and then each from
      its own length and 104 more. */
  ghost predicate TakenAt(step: nat, below: nat) {
    if step <= 16 then 0 < step && 2 * below == step * (step - 1)
    else below == step + 104 && (step >= 2048 || step in {32, 64, 128, 256, 512, 1024})
  }

  lemma NextTakenAt(step: nat, below: nat)
    requires TakenAt(step, below)
    ensures TakenAt(NextStep(step), below + step) && (below < 1128 ==> below + step <= 1128)
    ensures below == 1128 ==> step == 1024
    ensures below >= 1128 ==> below + step >= 2152
  {
    if step < 16 { assert (step + 1) * step == step * (step - 1) + 2 * step; }
  }

  /** No locator names a block between 1128 and 2152 below the tip, but for the genesis block. */
  lemma {:induction false} LocatorGap(height: nat, step: nat, top: nat, i: nat)
    requires height <= top && TakenAt(step, top - height) && i < |Heights(height, step)|
    ensures var h := Heights(height, step)[i]; h == 0 || top - h <= 1128 || top - h >= 2152
    decreases height
  {
    NextTakenAt(step, top - height);
    if i > 0 && step < height { LocatorGap(height - step, NextStep(step), top, i - 1); }
  }

  /** Any block within 1128 of the tip has one that a locator names at or below it, and also within 1128. */
  lemma {:induction false} NamedWithin(height: nat, step: nat, top: nat, fork: nat) returns (i: nat)
    requires fork <= height <= top && TakenAt(step, top - height) && top - fork <= 1128
    ensures i < |Heights(height, step)| && Heights(height, step)[i] <= fork && top - Heights(height, step)[i] <= 1128
    decreases height
  {
    NextTakenAt(step, top - height);
    if fork == height {
      i := 0;
    } else if step < height && fork <= height - step {
      i := NamedWithin(height - step, NextStep(step), top, fork);
      i := i + 1;
    } else {
      i := 1;
    }
  }

  /** The blocks of a chain at these heights. */
  function BlocksAt(best: seq<Hash>, heights: seq<nat>): (ks: seq<Hash>)
    requires forall i | 0 <= i < |heights| :: heights[i] < |best|
    ensures |ks| == |heights| && forall i | 0 <= i < |ks| :: ks[i] == best[heights[i]]
  {
    if heights == [] then [] else [best[heights[0]]] + BlocksAt(best, heights[1..])
  }

  /** The locator of a best chain. */
  function LocatorFor(best: seq<Hash>): (locator: seq<Hash>)
    requires best != []
    ensures locator != [] && locator[0] == best[|best| - 1]
  {
    HeightsDescend(|best| - 1, 1);
    BlocksAt(best, Heights(|best| - 1, 1))
  }

  // ---- Answering ---------------------------------------------------------------------------

  const MAX_HEADERS := 2000
  /** The most hashes of a locator that are looked up. */
  const MAX_LOCATOR := 101

  predicate OnChain(hs: Headers, best: seq<Hash>, k: Hash) {
    k in hs && hs[k].height < |best| && best[hs[k].height] == k
  }

  /** Where an answer to `locator` starts: after its first hash on the best chain, or after genesis. */
  function StartAfter(hs: Headers, best: seq<Hash>, locator: seq<Hash>): nat {
    if locator == [] then 1
    else if OnChain(hs, best, locator[0]) then hs[locator[0]].height + 1
    else StartAfter(hs, best, locator[1..])
  }

  ghost predicate AnswerFrom(hs: Headers, best: seq<Hash>, start: nat, stop: Hash, out: seq<Header>)
    requires forall i | 0 <= i < |best| :: best[i] in hs
  {
    && start + |out| <= |best| && |out| <= MAX_HEADERS
    && (forall i | 0 <= i < |out| :: out[i] == hs[best[start + i]].header)
    && (forall j | start <= j < start + |out| - 1 :: stop != 0 ==> best[j] != stop)
    && (start + |out| < |best| && |out| < MAX_HEADERS ==> |out| > 0 && stop != 0 && best[start + |out| - 1] == stop)
  }

  /** An answer starts after the first hash on the best chain, so no later than after any other. */
  lemma {:induction false} StartsNoLater(hs: Headers, best: seq<Hash>, locator: seq<Hash>, i: nat) returns (j: nat)
    requires i < |locator| && OnChain(hs, best, locator[i])
    ensures j <= i && OnChain(hs, best, locator[j]) && StartAfter(hs, best, locator) == hs[locator[j]].height + 1
  {
    if OnChain(hs, best, locator[0]) {
      j := 0;
    } else {
      j := StartsNoLater(hs, best, locator[1..], i - 1);
      j := j + 1;
    }
  }

  /** A hash on the best chain is found at its height. */
  lemma OnChainAt(hs: Headers, best: seq<Hash>, n: nat)
    requires n < |best| && forall i | 0 <= i < |best| :: best[i] in hs && hs[best[i]].height == i
    ensures OnChain(hs, best, best[n])
  {}

  /** With no hash on the best chain an answer starts after genesis. */
  lemma {:induction false} StartUnmatched(hs: Headers, best: seq<Hash>, locator: seq<Hash>)
    requires forall k | k in locator :: k !in best
    ensures StartAfter(hs, best, locator) == 1
  {
    if locator != [] {
      assert locator[0] in locator && forall k | k in locator[1..] :: k in locator;
      StartUnmatched(hs, best, locator[1..]);
    }
  }

  /** And otherwise after the first of them that is. */
  lemma {:induction false} StartMatched(hs: Headers, best: seq<Hash>, locator: seq<Hash>, i: nat, n: nat)
    requires forall i | 0 <= i < |best| :: best[i] in hs && hs[best[i]].height == i
    requires i < |locator| && n < |best| && locator[i] == best[n] && forall j | 0 <= j < i :: locator[j] !in best
    ensures StartAfter(hs, best, locator) == n + 1
  {
    if i == 0 {
      OnChainAt(hs, best, n);
    } else {
      assert locator[0] !in best;
      StartMatched(hs, best, locator[1..], i - 1, n);
    }
  }

  /** How an answer begins: with the child of the first listed hash that is on the best chain; with that of the
      genesis block if none is; with nothing only if there is no such child. */
  ghost predicate Begins(hs: Headers, best: seq<Hash>, locator: seq<Hash>, out: seq<Header>)
    requires forall i | 0 <= i < |best| :: best[i] in hs
  {
    && ((forall k | k in locator :: k !in best) ==>
          if |best| > 1 then out != [] && out[0] == hs[best[1]].header else out == [])
    && (forall i, n | 0 <= i < |locator| && 0 <= n < |best| && locator[i] == best[n] && NotBefore(best, locator, i) ::
          if n + 1 < |best| then out != [] && out[0] == hs[best[n + 1]].header else out == [])
  }

  ghost predicate NotBefore(best: seq<Hash>, locator: seq<Hash>, i: nat)
    requires i <= |locator|
  {
    forall j | 0 <= j < i :: locator[j] !in best
  }

  lemma AnswerBegins(hs: Headers, best: seq<Hash>, locator: seq<Hash>, stop: Hash, out: seq<Header>)
    requires forall i | 0 <= i < |best| :: best[i] in hs && hs[best[i]].height == i
    requires AnswerFrom(hs, best, StartAfter(hs, best, locator), stop, out)
    ensures Begins(hs, best, locator, out)
  {
    if forall k | k in locator :: k !in best { StartUnmatched(hs, best, locator); }
    forall i, n | 0 <= i < |locator| && 0 <= n < |best| && locator[i] == best[n] && NotBefore(best, locator, i)
      ensures if n + 1 < |best| then out != [] && out[0] == hs[best[n + 1]].header else out == []
    {
      StartMatched(hs, best, locator, i, n);
    }
  }

  lemma StartMatches(hs: Headers, best: seq<Hash>, locator: seq<Hash>, k: Hash)
    requires k in locator && OnChain(hs, best, k)
    ensures 0 < StartAfter(hs, best, locator) <= |best| && best[StartAfter(hs, best, locator) - 1] in locator
  {
    var i :| 0 <= i < |locator| && locator[i] == k;
    var j := StartsNoLater(hs, best, locator, i);
  }

  /** How an answer ends: with the stop hash, if that is among the first 2000 blocks from where it starts, and
      otherwise after 2000 or at the tip. */
  lemma AnswerEnds(hs: Headers, best: seq<Hash>, start: nat, stop: Hash, out: seq<Header>, end: nat)
    requires (forall i | 0 <= i < |best| :: best[i] in hs) && AnswerFrom(hs, best, start, stop, out)
    requires start <= end < |best| && end < start + 2000 && forall j | start <= j < end :: best[j] != stop || stop == 0
    ensures stop != 0 && best[end] == stop ==> |out| == end - start + 1
    ensures |out| > end - start
    ensures end == |best| - 1 || end == start + 1999 ==> |out| == end - start + 1
  {}
}
