/**
 What is said of a header, and what a tree's blocks have met, in the network's own terms: 2016 blocks to an
 epoch, a quarter of our difficulty, the parent's refusal.
 */
module TreeVerdicts {
  import opened Basics
  import opened Forest
  import opened TreeSpec
  import opened TreeRuns

  /** The target a block must meet: after 2016 blocks the one adjusted over them, from the first of them, 2016
      below it, to its parent; otherwise its parent's. */
  ghost function Asked(r: Rules, hs: Headers, parent: Hash): nat
    requires Rooted(r, hs) && parent in hs
  {
    var c, height := Chain(r, hs, parent), hs[parent].height + 1;
    if height % 2016 == 0 then r.retarget(hs[c[height - 2016]].header, hs[parent].header) else hs[parent].header.bits
  }

  /** Every block held above the genesis block, at whatever height, has an allowed target and has met the one
      asked of it: the first of an epoch the one adjusted from its ancestor 2016 lower to its parent. */
  lemma EveryBlockMetItsTarget(r: Rules, cps: Checkpoints, f: Holding, k: Hash)
    requires Inv(r, cps, f) && k in f.headers && f.headers[k].height > 0
    ensures var hs, h, n := f.headers, f.headers[k].header, f.headers[k].height; var c := Chain(r, hs, k);
            && c[n - 1] == h.prev && r.target(h.bits) <= r.maxTarget
            && (n % 2016 == 0 ==> r.meets(h, r.retarget(hs[c[n - 2016]].header, hs[c[n - 1]].header)))
            && (n % 2016 != 0 ==> r.meets(h, hs[c[n - 1]].header.bits))
  {
    assert Linked(r, f.headers, k) && Linked(r, f.headers, r.Root()) && Legal(r, f.headers, k);
    ChainStep(r, f.headers, k, f.headers[k].height - 1);
    assert Chain(r, f.headers, k) == Chain(r, f.headers, f.headers[k].header.prev) + [k];
  }

  /** What is said of a header whose parent is held, the first that applies: its target is not allowed, the
      checkpoint at its height is another block, its height is at or below the checkpoint reached, it does not
      meet the target asked. Otherwise it is accepted. */
  lemma VerdictWithParent(r: Rules, cps: Checkpoints, t: Tree, h: Header)
    requires TreeInv(r, cps, t) && r.hash(h) !in t.holding.headers && h.prev in t.holding.headers
    ensures var hs, n := t.holding.headers, t.holding.headers[h.prev].height + 1;
            Judge(r, cps, t, h) ==
            if r.target(h.bits) > r.maxTarget then Refused(TargetTooEasy)
            else if n in cps && cps[n] != r.hash(h) then Refused(CheckpointMismatch)
            else if t.holding.reached.Some? && n <= t.holding.reached.value then Refused(ForkBelowCheckpoint)
            else if r.meets(h, Asked(r, hs, h.prev)) then Accepted
            else Refused(InvalidPow)
  {}

  /** With nothing else in the way it is accepted if and only if it meets that target. */
  lemma AcceptedIffTargetMet(r: Rules, cps: Checkpoints, t: Tree, h: Header)
    requires TreeInv(r, cps, t) && r.hash(h) !in t.holding.headers && h.prev in t.holding.headers
    requires r.target(h.bits) <= r.maxTarget
    requires var n := t.holding.headers[h.prev].height + 1;
             !(n in cps && cps[n] != r.hash(h)) && !(t.holding.reached.Some? && n <= t.holding.reached.value)
    ensures var hs, c := t.holding.headers, Chain(r, t.holding.headers, h.prev); var n := hs[h.prev].height + 1;
            && (n % 2016 == 0 ==>
                  (Judge(r, cps, t, h).Accepted?
                   <==> r.meets(h, r.retarget(hs[c[n - 2016]].header, hs[h.prev].header))))
            && (n % 2016 != 0 ==> (Judge(r, cps, t, h).Accepted? <==> r.meets(h, hs[h.prev].header.bits)))
  {
    VerdictWithParent(r, cps, t, h);
  }

  /** What is said of a header whose parent is not held: its parent's reason, if that was refused; that its
      chain is weaker, if four times its difficulty is still less than our tip's, where difficulty counts; or
      nothing but that it is an orphan. */
  lemma VerdictWithoutParent(r: Rules, cps: Checkpoints, t: Tree, h: Header)
    requires TreeInv(r, cps, t) && r.hash(h) !in t.holding.headers && h.prev !in t.holding.headers
    ensures forall i | 0 <= i < |t.memory| && t.memory[i].hash == h.prev ::
              Judge(r, cps, t, h) == Refused(t.memory[i].reason)
    ensures (forall i | 0 <= i < |t.memory| :: t.memory[i].hash != h.prev) ==>
              var ours := r.difficulty(t.holding.headers[t.holding.tip].header);
              Judge(r, cps, t, h) ==
              Refused(if !r.minDifficultyAllowed && 4.0 * r.difficulty(h) < ours then WeakerChain else OrphanHeader)
  {}

  lemma VerdictIfHeld(r: Rules, cps: Checkpoints, t: Tree, h: Header)
    requires TreeInv(r, cps, t)
    ensures Judge(r, cps, t, h) == Known <==> r.hash(h) in t.holding.headers
  {}

  /** A refusal is remembered, under the reason given unless an older one is, and only a plain orphan is not. */
  lemma RefusalsAreRemembered(r: Rules, cps: Checkpoints, t: Tree, h: Header)
    requires TreeInv(r, cps, t) && Judge(r, cps, t, h).Refused?
    ensures var reason, m := Judge(r, cps, t, h).reason, Insert(r, cps, t, h).memory;
            && (reason.OrphanHeader? ==> m == t.memory)
            && (!reason.OrphanHeader? ==>
                  exists i :: 0 <= i < |m| && m[i].hash == r.hash(h)
                              && (Remembers(t.memory, r.hash(h)) || m[i].reason == reason))
  {
    var reason := Judge(r, cps, t, h).reason;
    if !reason.OrphanHeader? {
      IsRemembered(t.memory, r.hash(h), reason);
      TouchKeepsMemory(t.memory, h.prev);
      IsRemembered(Touch(t.memory, h.prev), r.hash(h), reason);
      TouchForgetsNothing(t.memory, h.prev, r.hash(h));
    }
  }

  lemma IsRemembered(m: Memory, k: Hash, reason: HeaderError)
    requires MemoryInv(m)
    ensures var m' := Remember(m, k, reason);
            exists i :: 0 <= i < |m'| && m'[i].hash == k && (Remembers(m, k) || m'[i].reason == reason)
  {
    var m' := Remember(m, k, reason);
    if Remembers(m, k) { assert m'[IndexOf(m, k)].hash == k; } else { assert m'[|m'| - 1] == Refusal(k, reason); }
  }

  lemma TouchForgetsNothing(m: Memory, k: Hash, x: Hash)
    ensures Remembers(Touch(m, k), x) ==> Remembers(m, x)
  {
    if Remembers(m, k) && Remembers(Touch(m, k), x) {
      var i, t := IndexOf(m, k), Touch(m, k);
      var j := IndexOf(t, x);
      assert t[j] == if j < i then m[j] else if j == |m| - 1 then m[i] else m[j + 1];
    }
  }

  function TotalWork(r: Rules, s: seq<Header>): nat {
    if s == [] then 0 else TotalWork(r, s[..|s| - 1]) + r.work(s[|s| - 1])
  }

  ghost function Ancestors(r: Rules, hs: Headers, k: Hash): (s: seq<Header>)
    requires Rooted(r, hs) && k in hs
    ensures |s| == hs[k].height + 1 && s[|s| - 1] == hs[k].header
    decreases hs[k].height
  {
    assert Linked(r, hs, k);
    if k == r.Root() then [hs[k].header] else Ancestors(r, hs, hs[k].header.prev) + [hs[k].header]
  }

  /** The work of a block is that of all its ancestors and its own: every one once, the genesis block's too. */
  lemma {:induction false} WorkIsTheSum(r: Rules, hs: Headers, k: Hash)
    requires Rooted(r, hs) && k in hs
    ensures hs[k].work == TotalWork(r, Ancestors(r, hs, k))
    decreases hs[k].height
  {
    assert Linked(r, hs, k);
    if k == r.Root() {
      assert TotalWork(r, [hs[k].header]) == TotalWork(r, []) + r.work(hs[k].header);
    } else {
      var p := hs[k].header.prev;
      WorkIsTheSum(r, hs, p);
      assert (Ancestors(r, hs, p) + [hs[k].header])[..hs[k].height] == Ancestors(r, hs, p);
    }
  }

  /** The refusal a batch reports is that of the first header refused. */
  lemma {:induction false} FirstRefusalIsTheFirst(vs: seq<Verdict>)
    ensures FirstRefusal(vs).None? <==> forall v | v in vs :: !v.Refused?
    ensures FirstRefusal(vs).Some? ==>
              exists i :: 0 <= i < |vs| && vs[i] == Refused(FirstRefusal(vs).value)
                          && forall j | 0 <= j < i :: !vs[j].Refused?
  {
    if vs != [] {
      var init, last := vs[..|vs| - 1], vs[|vs| - 1];
      FirstRefusalIsTheFirst(init);
      assert vs == init + [last];
      if FirstRefusal(init).Some? {
        var i :| 0 <= i < |init| && init[i] == Refused(FirstRefusal(init).value)
                 && forall j | 0 <= j < i :: !init[j].Refused?;
        assert vs[i] == init[i];
      } else if last.Refused? {
        assert vs[|init|] == last && forall j | 0 <= j < |init| :: vs[j] in init;
      }
    }
  }
}
