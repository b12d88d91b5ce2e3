/**
 The header tree itself: the object every connection shares. Each method is proved against
 `TreeSpec`, whose consequences over whole runs are in `TreeRuns`.
 */
module HeaderTrees {
  import opened Basics
  import opened Forest
  import opened TreeSpec
  import opened TreeRuns
  import opened TreeVerdicts
  import opened Pruning
  import opened Locator
  import opened TreeFile
  import opened ChainTips
  import Refusals
  import Recovery

  class HeaderTree {
    const rules: Rules
    const checkpoints: Checkpoints

    var headers: Headers
    /** `bestChain[height]` is the block at that height on the best chain. */
    var bestChain: seq<Hash>
    var tip: Hash
    var tipHeight: nat
    var tipWork: nat
    var dirty: bool
    /** The highest checkpoint whose block the tree holds. */
    var reached: Option<nat>
    var pruned: nat

    /** Blocks announced but absent from the tree, with the requests out for each. */
    var recovery: Recovery.Requests

    /** The refusals remembered, with the number that orders them, and the same the other way round. */
    var rejected: map<Hash, (HeaderError, nat)>
    var rejectedOrder: map<nat, Hash>
    var rejectedSeq: nat
    /** The refusals in the order they will be forgotten. */
    ghost var order: seq<Hash>

    // ---- The abstract value --------------------------------------------------------------

    ghost predicate Queued()
      reads this
    {
      Refusals.Queued(order, rejected, rejectedOrder, rejectedSeq)
    }

    ghost function Remembered(): (m: Memory)
      requires Queued()
      reads this
    {
      Refusals.Entries(order, rejected)
    }

    ghost function Held(): Holding
      reads this
    {
      Holding(headers, tip, reached)
    }

    ghost function AsTree(): Tree
      requires Queued()
      reads this
    {
      Tree(Held(), Remembered())
    }

    ghost predicate TipFields()
      reads this
    {
      tip in headers && tipHeight == headers[tip].height && tipWork == headers[tip].work
    }

    /** What holds between any two inserts. */
    ghost predicate Core()
      reads this
    {
      && rules.CollisionFree()
      && Queued()
      && TreeInv(rules, checkpoints, AsTree())
      && TipFields()
    }

    /** What holds between any two calls. */
    ghost predicate Valid()
      reads this
    {
      Core() && bestChain == Chain(rules, headers, tip)
    }

    // ---- The refusals remembered ---------------------------------------------------------

    method RememberRejected(hash: Hash, reason: HeaderError)
      requires Queued() && |Remembered()| <= REMEMBERED
      modifies `rejected, `rejectedOrder, `rejectedSeq, `order
      ensures Queued() && Remembered() == Remember(old(Remembered()), hash, reason)
    {
      Refusals.KeysRemembered(order, rejected, hash);
      if hash in rejected {
        return;
      }
      ghost var m := Remembered();
      RememberAtTheLimit(m, hash, reason);
      AppendRejected(hash, reason);
      while |rejected| > REMEMBERED
        invariant Queued() && |Remembered()| == |rejected|
        invariant Remembered() == m + [Refusal(hash, reason)]
                  || (|m| == REMEMBERED && Remembered() == (m + [Refusal(hash, reason)])[1..])
        decreases |rejected|
      {
        ForgetOldest();
      }
    }

    method AppendRejected(hash: Hash, reason: HeaderError)
      requires Queued() && hash !in rejected
      modifies `rejected, `rejectedOrder, `rejectedSeq, `order
      ensures Queued() && Remembered() == old(Remembered()) + [Refusal(hash, reason)] && |Remembered()| == |rejected|
    {
      rejectedSeq := rejectedSeq + 1;
      rejected := rejected[hash := (reason, rejectedSeq)];
      rejectedOrder := rejectedOrder[rejectedSeq := hash];
      order := order + [hash];
      Refusals.PushTo(old(order), old(rejected), old(rejectedOrder), old(rejectedSeq), hash, reason, order, rejected,
                      rejectedOrder);
      Refusals.ListLength(order, rejected);
    }

    method OldestRefusal() returns (oldest: nat)
      requires Queued() && order != []
      ensures oldest in rejectedOrder && forall n | n in rejectedOrder :: oldest <= n
    {
      Refusals.OldestExists(order, rejected, rejectedOrder, rejectedSeq);
      oldest :| oldest in rejectedOrder && forall n | n in rejectedOrder :: oldest <= n;
    }

    method ForgetOldest()
      requires Queued() && 0 < |rejected|
      modifies `rejected, `rejectedOrder, `order
      ensures Queued() && |old(Remembered())| == |old(rejected)| && |Remembered()| == |rejected|
      ensures Remembered() == old(Remembered())[1..]
    {
      Refusals.ListLength(order, rejected);
      var oldest := OldestRefusal();
      DropRefusal(oldest);
      Refusals.ListLength(order, rejected);
    }

    method DropRefusal(oldest: nat)
      requires Queued() && order != [] && oldest in rejectedOrder && forall n | n in rejectedOrder :: oldest <= n
      modifies `rejected, `rejectedOrder, `order
      ensures Queued() && Remembered() == old(Remembered())[1..]
    {
      var hash := rejectedOrder[oldest];
      rejectedOrder := rejectedOrder - {oldest};
      rejected := rejected - {hash};
      order := order[1..];
      Refusals.Forget(old(order), old(rejected), old(rejectedOrder), rejectedSeq, oldest, order, rejected,
                      rejectedOrder);
    }

    method TouchRejected(hash: Hash)
      requires Queued()
      modifies `rejected, `rejectedOrder, `rejectedSeq, `order
      ensures Queued() && Remembered() == Touch(old(Remembered()), hash)
    {
      Refusals.KeysRemembered(order, rejected, hash);
      rejectedSeq := rejectedSeq + 1;
      if hash in rejected {
        ghost var i := IndexOf(Refusals.Entries(order, rejected), hash);
        var (reason, previous) := rejected[hash];
        rejected := rejected[hash := (reason, rejectedSeq)];
        rejectedOrder := (rejectedOrder - {previous})[rejectedSeq := hash];
        order := ToBack(order, i);
        Refusals.Move(old(order), old(rejected), old(rejectedOrder), old(rejectedSeq), i, order, rejected,
                      rejectedOrder);
      }
    }

    // ---- Walks ---------------------------------------------------------------------------

    /** `steps` parents back from `start`: never fails where there are that many, and always where there are
        not, the genesis block's parent not being a block. */
    method WalkBack(start: Hash, steps: nat) returns (entry: Option<Entry>)
      requires Rooted(rules, headers)
      ensures start in headers && steps <= headers[start].height ==>
                entry == Some(headers[Chain(rules, headers, start)[headers[start].height - steps]])
      ensures start in headers && steps > headers[start].height && rules.genesis.prev !in headers ==> entry.None?
      ensures start !in headers ==> entry.None?
    {
      var hash := start;
      for i := 0 to steps
        invariant start !in headers ==> i == 0 && hash == start
        invariant start in headers && i <= headers[start].height ==>
                    hash == Chain(rules, headers, start)[headers[start].height - i]
        invariant start in headers && i > headers[start].height && rules.genesis.prev !in headers ==>
                    hash == rules.genesis.prev
      {
        if hash !in headers {
          return None;
        }
        StepBack(rules, headers, start, i);
        hash := headers[hash].header.prev;
      }
      return if hash in headers then Some(headers[hash]) else None;
    }

    method RebuildBestChain()
      requires Rooted(rules, headers) && tip in headers
      modifies `bestChain
      ensures bestChain == Chain(rules, headers, tip)
    {
      ghost var full := Chain(rules, headers, tip);
      var chain: seq<Hash> := [tip];
      var hash := tip;
      while headers[hash].height != 0
        invariant hash in headers && headers[hash].height <= headers[tip].height
        invariant hash == full[headers[hash].height]
        invariant chain == full[headers[hash].height..]
        decreases headers[hash].height
      {
        ChainStep(rules, headers, tip, headers[hash].height - 1);
        hash := headers[hash].header.prev;
        chain := [hash] + chain;
      }
      bestChain := chain;
    }

    // ---- Checkpoints ---------------------------------------------------------------------

    /** The ancestry of a block, as a set. */
    method Ancestors(start: Hash) returns (keep: set<Hash>)
      requires Rooted(rules, headers) && start in headers
      ensures forall k :: k in keep <==> k in Chain(rules, headers, start)
    {
      ghost var full := Chain(rules, headers, start);
      keep := {};
      var hash := start;
      while true
        invariant hash in headers && headers[hash].height <= headers[start].height
        invariant hash == full[headers[hash].height]
        invariant forall k :: k in keep <==> k in full && headers[hash].height < headers[k].height
        decreases headers[hash].height
      {
        assert forall k | k in full && headers[k].height == headers[hash].height :: k == hash;
        keep := keep + {hash};
        if headers[hash].height == 0 {
          break;
        }
        ChainStep(rules, headers, start, headers[hash].height - 1);
        hash := headers[hash].header.prev;
      }
    }

    /** Of the headers above `cp`, drops those whose parent is gone, lowest first. */
    method DropOrphansAbove(ghost hs: Headers, cp: Hash)
      requires Rooted(rules, hs) && cp in hs && cp in headers
      requires headers == map k | k in hs && (hs[cp].height < hs[k].height || k in Chain(rules, hs, cp)) :: hs[k]
      modifies `headers
      ensures headers == Survivors(rules, hs, cp)
    {
      var c := headers[cp].height;
      var above := set k | k in headers && headers[k].height > c;
      PartlyStart(rules, hs, cp, above, headers);
      ghost var kept := Survivors(rules, hs, cp).Keys;
      while above != {}
        invariant Partly(hs, kept, above, headers)
        invariant forall k | k in above :: hs[cp].height < hs[k].height
        decreases above
      {
        var hash := Lowest(above);
        KeptWithItsParent(rules, hs, cp, hash);
        PartlyStep(hs, kept, above, headers, hash);
        above := above - {hash};
        if headers[hash].header.prev !in headers {
          headers := headers - {hash};
        }
      }
    }

    method Lowest(above: set<Hash>) returns (hash: Hash)
      requires above != {} && forall k | k in above :: k in headers
      ensures hash in above && forall k | k in above :: headers[hash].height <= headers[k].height
    {
      ghost var lowest := LowestExists(headers, above);
      hash :| hash in above && forall k | k in above :: headers[hash].height <= headers[k].height;
    }

    method Heaviest() returns (hash: Hash)
      requires |headers| > 0
      ensures hash in headers && forall k | k in headers :: headers[k].work <= headers[hash].work
    {
      assert headers.Keys != {};
      ghost var heaviest := HeaviestExists(headers, headers.Keys);
      hash :| hash in headers && forall k | k in headers :: headers[k].work <= headers[hash].work;
    }

    /** After `removed` headers went: a tip for what is left, the one there was or else the one with
        most work. */
    method Retip(removed: nat)
      requires Rooted(rules, headers) && (tip in headers ==> TipFields()) && (removed == 0 ==> tip in headers)
      modifies `tip, `tipHeight, `tipWork, `bestChain, `pruned, `dirty
      ensures tip in headers && TipFields()
      ensures if old(tip) in headers then tip == old(tip)
              else forall k | k in headers :: headers[k].work <= headers[tip].work
      ensures pruned == old(pruned) + removed && dirty == (old(dirty) || removed > 0)
      ensures bestChain == if removed == 0 then old(bestChain) else Chain(rules, headers, tip)
    {
      if removed > 0 {
        pruned := pruned + removed;
        dirty := true;
        if tip !in headers {
          tip := Heaviest();
          tipHeight := headers[tip].height;
          tipWork := headers[tip].work;
        }
        RebuildBestChain();
      }
    }

    method KeepComparable(cp: Hash)
      requires Rooted(rules, headers) && cp in headers
      modifies `headers
      ensures PrunedTo(rules, old(headers), cp, headers) && cp in headers && Rooted(rules, headers)
      ensures Sub(headers, old(headers))
    {
      var keep := Ancestors(cp);
      var c := headers[cp].height;
      ghost var hs := headers;
      headers := map k | k in headers && (headers[k].height > c || k in keep) :: headers[k];
      assert Chain(rules, hs, cp)[c] == cp;
      DropOrphansAbove(hs, cp);
      SurvivorsRooted(rules, hs, cp);
    }

    /** Removes what is at or below the checkpoint and not on its chain, and whatever was built on that. */
    method PruneTo(cp: Hash) returns (removed: nat)
      requires Rooted(rules, headers) && TipFields() && cp in headers
      modifies `headers, `tip, `tipHeight, `tipWork, `pruned, `dirty, `bestChain
      ensures PrunedTo(rules, old(headers), cp, headers)
      ensures Rooted(rules, headers) && TipFields()
      ensures if old(tip) in headers then tip == old(tip)
              else forall k | k in headers :: headers[k].work <= headers[tip].work
      ensures removed == |old(headers)| - |headers| && pruned == old(pruned) + removed
      ensures dirty == (old(dirty) || removed > 0)
      ensures removed == 0 ==> headers == old(headers)
      ensures bestChain == if removed == 0 then old(bestChain) else Chain(rules, headers, tip)
    {
      var before := |headers|;
      KeepComparable(cp);
      SubmapSize(headers, old(headers));
      removed := before - |headers|;
      Retip(removed);
    }

    /** The same for the checkpoint reached, if one is. A reached checkpoint's block is held: without it there
        would be nothing left. */
    method PruneBelowCheckpoint() returns (removed: nat)
      requires Rooted(rules, headers) && TipFields()
      requires reached.Some? && reached.value in checkpoints ==>
                 checkpoints[reached.value] in headers && headers[checkpoints[reached.value]].height == reached.value
      modifies `headers, `tip, `tipHeight, `tipWork, `pruned, `dirty, `bestChain
      ensures if reached.Some? && reached.value in checkpoints
              then PrunedTo(rules, old(headers), checkpoints[reached.value], headers) else headers == old(headers)
      ensures Rooted(rules, headers) && TipFields()
      ensures if old(tip) in headers then tip == old(tip)
              else forall k | k in headers :: headers[k].work <= headers[tip].work
      ensures removed == |old(headers)| - |headers| && pruned == old(pruned) + removed
      ensures dirty == (old(dirty) || removed > 0)
      ensures removed == 0 ==> headers == old(headers)
      ensures bestChain == if removed == 0 then old(bestChain) else Chain(rules, headers, tip)
    {
      if reached.None? || reached.value !in checkpoints {
        return 0;
      }
      removed := PruneTo(checkpoints[reached.value]);
    }

    method NoteCheckpoint(hash: Hash, height: nat)
      requires Rooted(rules, headers) && tip in headers && TipFields()
      requires hash in headers && headers[hash].height == height
      modifies `headers, `tip, `tipHeight, `tipWork, `pruned, `dirty, `bestChain, `reached
      ensures tip in headers && TipFields()
      ensures Noted(rules, checkpoints, old(Held()), hash, Held())
      ensures reached == old(reached) ==> pruned == old(pruned)
      ensures pruned - old(pruned) == |old(headers)| - |headers| && dirty == (old(dirty) || pruned > old(pruned))
      ensures pruned == old(pruned) ==> bestChain == old(bestChain)
      ensures pruned > old(pruned) ==> Rooted(rules, headers) && bestChain == Chain(rules, headers, tip)
    {
      if !Reaches(checkpoints, reached, hash, height) {
        return;
      }
      reached := Some(height);
      var removed := PruneBelowCheckpoint();
    }

    /** Files a header the rules allow, and notes the checkpoint it may be. */
    method FileHeader(header: Header)
      requires Inv(rules, checkpoints, Held()) && TipFields() && Takes(rules, checkpoints, Held(), header)
      modifies `headers, `tip, `tipHeight, `tipWork, `pruned, `dirty, `bestChain, `reached
      ensures tip in headers && TipFields()
      ensures Grow(rules, checkpoints, old(Held()), header) ==
              Held().(tip := if old(Child(rules, headers, header).work) > tipWork then rules.hash(header) else tip)
      ensures reached == old(reached) ==> bestChain == old(bestChain)
      ensures pruned - old(pruned) == |old(headers)| + 1 - |headers|
    {
      ghost var f := Held();
      PlaceKeepsRooted(rules, headers, header);
      headers := Place(rules, headers, header);
      ghost var g := headers;
      NoteCheckpoint(rules.hash(header), headers[rules.hash(header)].height);
      TakenIsGrown(rules, checkpoints, f, header, g, Held());
    }

    /** Takes a header the rules allow. */
    method Accept(header: Header)
      requires Core() && Takes(rules, checkpoints, Held(), header)
      modifies `headers, `tip, `tipHeight, `tipWork, `pruned, `dirty, `bestChain, `reached
      ensures Held() == Grow(rules, checkpoints, old(Held()), header)
      ensures tip in headers && TipFields() && dirty
      ensures tip == old(tip) ==> bestChain == old(bestChain)
      ensures pruned - old(pruned) == |old(headers)| + 1 - |headers|
    {
      var hash := rules.hash(header);
      var entry := Child(rules, headers, header);
      FileHeader(header);
      if entry.work > tipWork {
        tip, tipHeight, tipWork := hash, entry.height, entry.work;
      }
      dirty := true;
    }

    // ---- One header ----------------------------------------------------------------------

    method ValidateHeader(header: Header) returns (objection: Option<HeaderError>)
      requires Rooted(rules, headers) && header.prev in headers
      ensures objection == Objection(rules, checkpoints, Held(), header)
      ensures objection.None? ==> rules.meets(header, Asked(rules, headers, header.prev))
      ensures objection == Some(InvalidPow) ==> !rules.meets(header, Asked(rules, headers, header.prev))
    {
      var parent := headers[header.prev];
      var height: nat := parent.height + 1;
      if rules.target(header.bits) > rules.maxTarget {
        return Some(TargetTooEasy);
      }
      if height in checkpoints && checkpoints[height] != rules.hash(header) {
        return Some(CheckpointMismatch);
      }
      if Passed(reached, height) {
        return Some(ForkBelowCheckpoint);
      }
      var expected: nat := parent.header.bits;
      if height % EPOCH == 0 {
        // The last block of the epoch has the whole epoch behind it, so the walk lands.
        var first := WalkBack(header.prev, EPOCH - 1);
        expected := rules.retarget(first.value.header, parent.header);
      }
      return if rules.meets(header, expected) then None else Some(InvalidPow);
    }

    /** Refuses a header whose parent the tree does not hold. */
    method RefuseUnplaced(header: Header) returns (reason: HeaderError)
      requires Core() && rules.hash(header) !in headers && header.prev !in headers
      modifies `rejected, `rejectedOrder, `rejectedSeq, `order
      ensures Queued() && Remembered() == old(Recall(rules, checkpoints, AsTree(), header))
      ensures Refused(reason) == old(Judge(rules, checkpoints, AsTree(), header))
    {
      Refusals.KeysRemembered(order, rejected, header.prev);
      TouchKeepsMemory(Remembered(), header.prev);
      if header.prev in rejected {
        reason := rejected[header.prev].0;
        TouchRejected(header.prev);
        RememberRejected(rules.hash(header), reason);
      } else if Weaker(rules, headers[tip].header, header) {
        reason := WeakerChain;
        RememberRejected(rules.hash(header), reason);
      } else {
        reason := OrphanHeader;
      }
    }

    /** Offers one header to the tree. The best chain is left to the caller to rebuild. */
    method InsertInner(header: Header) returns (v: Verdict)
      requires Core()
      modifies this
      ensures Core()
      ensures v == old(Judge(rules, checkpoints, AsTree(), header))
      ensures AsTree() == old(Insert(rules, checkpoints, AsTree(), header))
      ensures tip == old(tip) ==> bestChain == old(bestChain)
      ensures recovery == if v.Accepted? then old(recovery) - {rules.hash(header)} else old(recovery)
      ensures pruned - old(pruned) == |old(headers)| + (if v.Accepted? then 1 else 0) - |headers|
      ensures dirty == (old(dirty) || v.Accepted?)
    {
      InsertKeepsInv(rules, checkpoints, AsTree(), header);
      if rules.hash(header) in headers {
        return Known;
      }
      if header.prev !in headers {
        var reason := RefuseUnplaced(header);
        return Refused(reason);
      }
      v := InsertPlaced(header);
    }

    /** A header whose parent is held. */
    method InsertPlaced(header: Header) returns (v: Verdict)
      requires Core() && rules.hash(header) !in headers && header.prev in headers
      modifies this
      ensures Queued() && TipFields() && rules.CollisionFree()
      ensures v == old(Judge(rules, checkpoints, AsTree(), header))
      ensures AsTree() == old(Insert(rules, checkpoints, AsTree(), header))
      ensures tip == old(tip) ==> bestChain == old(bestChain)
      ensures recovery == if v.Accepted? then old(recovery) - {rules.hash(header)} else old(recovery)
      ensures pruned - old(pruned) == |old(headers)| + (if v.Accepted? then 1 else 0) - |headers|
      ensures dirty == (old(dirty) || v.Accepted?)
    {
      var objection := ValidateHeader(header);
      if objection.Some? {
        RememberRejected(rules.hash(header), objection.value);
        return Refused(objection.value);
      }
      Accept(header);
      recovery := recovery - {rules.hash(header)};
      return Accepted;
    }

    // ---- Runs of headers -----------------------------------------------------------------

    constructor (rules: Rules, checkpoints: Checkpoints)
      requires rules.CollisionFree()
      ensures this.rules == rules && this.checkpoints == checkpoints
      ensures Valid() && AsTree() == Fresh(rules, checkpoints)
      ensures recovery == map[] && pruned == 0
    {
      this.rules := rules;
      this.checkpoints := checkpoints;
      headers := map[rules.Root() := Entry(rules.genesis, 0, rules.work(rules.genesis))];
      bestChain := [rules.Root()];
      tip, tipHeight, tipWork := rules.Root(), 0, rules.work(rules.genesis);
      dirty, reached, pruned := false, None, 0;
      recovery := map[];
      rejected, rejectedOrder, rejectedSeq, order := map[], map[], 0, [];
      new;
      NoteRoot();
      FreshInv(rules, checkpoints);
    }

    /** The genesis block may be a checkpoint. */
    method NoteRoot()
      requires headers == Fresh(rules, checkpoints).holding.headers && tip == rules.Root() && TipFields()
      requires reached.None?
      modifies `headers, `tip, `tipHeight, `tipWork, `pruned, `dirty, `bestChain, `reached
      ensures Held() == Fresh(rules, checkpoints).holding && TipFields() && bestChain == old(bestChain)
      ensures pruned == old(pruned)
    {
      FreshInv(rules, checkpoints);
      ghost var hs := headers;
      NoteCheckpoint(tip, 0);
      if reached.Some? { SurvivorsOfOne(rules, hs, tip, headers); }
    }

    /** The tree is where the run `s` from `t0` leaves it. */
    ghost predicate Ran(t0: Tree, s: seq<Header>)
      reads this
    {
      && Core() && TreeInv(rules, checkpoints, t0) && HeldOrPruned(t0.holding, Held())
      && AsTree() == InsertAll(rules, checkpoints, t0, s)
    }

    /** One more header of a run that started at `t0`. */
    method InsertNext(header: Header, ghost t0: Tree, ghost s: seq<Header>, ghost s': seq<Header>,
                      accepted: nat, err: Option<HeaderError>)
      returns (accepted': nat, err': Option<HeaderError>)
      requires Ran(t0, s) && s' == s + [header] && Tally(rules, checkpoints, t0, s, accepted, err)
      modifies this
      ensures Ran(t0, s') && Tally(rules, checkpoints, t0, s', accepted', err')
      ensures tip == t0.holding.tip ==> old(tip) == tip && bestChain == old(bestChain)
      ensures pruned - old(pruned) == |old(headers)| + (accepted' - accepted) - |headers|
      ensures accepted <= accepted' && dirty == (old(dirty) || accepted < accepted')
    {
      TipDoesNotComeBack(rules, checkpoints, t0.holding, AsTree(), header);
      TallyOneMore(rules, checkpoints, t0, s, header, s', accepted, err);
      var v := InsertInner(header);
      accepted' := if v.Accepted? then accepted + 1 else accepted;
      err' := if err.None? && v.Refused? then Some(v.reason) else err;
    }

    /** Offers headers one after another, without rebuilding the best chain. */
    method InsertEach(batch: seq<Header>, ghost t0: Tree) returns (accepted: nat, err: Option<HeaderError>)
      requires Core() && t0 == AsTree()
      modifies this
      ensures Ran(t0, batch) && Tally(rules, checkpoints, t0, batch, accepted, err)
      ensures tip == old(tip) ==> bestChain == old(bestChain)
      ensures pruned - old(pruned) == |old(headers)| + accepted - |headers|
      ensures dirty == (old(dirty) || accepted > 0)
    {
      accepted, err := 0, None;
      ghost var done: seq<Header> := [];
      for i := 0 to |batch|
        invariant done == batch[..i]
        invariant Ran(t0, done) && Tally(rules, checkpoints, t0, done, accepted, err)
        invariant tip == t0.holding.tip ==> bestChain == old(bestChain)
        invariant pruned - old(pruned) == |old(headers)| + accepted - |headers|
        invariant dirty == (old(dirty) || accepted > 0)
      {
        ghost var next := done + [batch[i]];
        PrefixGrows(batch, i);
        accepted, err := InsertNext(batch[i], t0, done, next, accepted, err);
        done := next;
      }
      WholePrefix(batch);
    }

    /** Offers a batch. The count is of headers taken, the error that of the first one refused. */
    method InsertBatch(batch: seq<Header>) returns (accepted: nat, err: Option<HeaderError>)
      requires Valid()
      modifies this
      ensures Valid() && dirty == (old(dirty) || accepted > 0)
      ensures AsTree() == InsertAll(rules, checkpoints, old(AsTree()), batch)
      ensures accepted == Count(Verdicts(rules, checkpoints, old(AsTree()), batch))
      ensures err == FirstRefusal(Verdicts(rules, checkpoints, old(AsTree()), batch))
    {
      var oldTip := tip;
      accepted, err := InsertEach(batch, AsTree());
      if tip != oldTip {
        RebuildBestChain();
      } else {
        SharedEntriesAgree(rules, old(headers), headers, tip);
      }
    }

    /** Replays a file of headers into a fresh tree. */
    method Replay(file: seq<Header>)
      requires Valid() && AsTree() == Fresh(rules, checkpoints) && pruned == 0
      modifies this
      ensures Core() && AsTree() == Replayed(rules, checkpoints, file)
      ensures pruned == 1 + Count(ReplayVerdicts(rules, checkpoints, file)) - |headers|
    {
      var accepted, err := InsertEach(file, Fresh(rules, checkpoints));
    }

    method FinishLoading()
      requires Core()
      modifies `bestChain, `dirty
      ensures Valid() && dirty == (pruned > 0)
    {
      RebuildBestChain();
      dirty := pruned > 0;
    }

    static method Load(rules: Rules, checkpoints: Checkpoints, file: seq<Header>) returns (tree: HeaderTree)
      requires rules.CollisionFree()
      ensures fresh(tree) && tree.rules == rules && tree.checkpoints == checkpoints && tree.Valid()
      ensures tree.AsTree() == Replayed(rules, checkpoints, file)
      ensures tree.pruned == 1 + Count(ReplayVerdicts(rules, checkpoints, file)) - |tree.headers|
      ensures tree.dirty == (tree.pruned > 0)
    {
      tree := new HeaderTree(rules, checkpoints);
      tree.Replay(file);
      tree.FinishLoading();
    }

    // ---- Saving --------------------------------------------------------------------------

    /** The first of `rest` in saving order. */
    method FirstToSave(rest: set<Hash>) returns (k: Hash)
      requires rest != {} && forall x | x in rest :: x in headers
      ensures k in rest && forall x | x in rest && x != k :: Less(headers, bestChain, k, x)
    {
      ghost var first := LeastExists(headers, bestChain, rest);
      k :| k in rest && forall x | x in rest && x != k :: Less(headers, bestChain, k, x);
    }

    /** The headers held, in the order they are written in; nothing if there is nothing new to write. */
    method Save() returns (file: Option<seq<Header>>, ghost listing: seq<Hash>)
      requires Valid()
      modifies `dirty
      ensures file.Some? == old(dirty) && !dirty
      ensures file.Some? ==> Listed(headers, bestChain, listing) && file.value == File(headers, listing)
    {
      if !dirty {
        return None, [];
      }
      var rest := headers.Keys;
      var out: seq<Header> := [];
      listing := [];
      while rest != {}
        invariant Listing(headers, bestChain, listing, rest)
        invariant out == File(headers, listing)
        decreases rest
      {
        var k := FirstToSave(rest);
        ListingGrows(headers, bestChain, listing, rest, k);
        out := out + [headers[k].header];
        listing := listing + [k];
        rest := rest - {k};
      }
      ListingDone(headers, bestChain, listing);
      dirty := false;
      return Some(out), listing;
    }

    // ---- Questions -----------------------------------------------------------------------

    /** A locator: the best chain at heights further and further apart, tip first, genesis last. */
    method BuildLocator() returns (locator: seq<Hash>)
      requires Valid()
      ensures |locator| == |Heights(tipHeight, 1)|
      ensures forall i | 0 <= i < |locator| ::
                Heights(tipHeight, 1)[i] < |bestChain| && locator[i] == bestChain[Heights(tipHeight, 1)[i]]
    {
      locator := NameHeights(bestChain, tipHeight);
    }

    /** The height after the first locator hash on the best chain, or after genesis. */
    method FindStart(locator: seq<Hash>) returns (start: nat)
      requires Valid()
      ensures start == StartAfter(headers, bestChain, locator) && 0 < start <= |bestChain|
    {
      for i := 0 to |locator|
        invariant StartAfter(headers, bestChain, locator) == StartAfter(headers, bestChain, locator[i..])
      {
        assert locator[i..][1..] == locator[i + 1..];
        if OnChain(headers, bestChain, locator[i]) {
          return headers[locator[i]].height + 1;
        }
      }
      return 1;
    }

    /** The headers from there on, up to two thousand, and up to the stop hash. */
    method Collect(start: nat, stop: Hash) returns (out: seq<Header>)
      requires Valid() && 0 < start <= |bestChain|
      ensures AnswerFrom(headers, bestChain, start, stop, out)
    {
      var end: nat := if start + MAX_HEADERS < |bestChain| then start + MAX_HEADERS else |bestChain|;
      out := [];
      for h := start to end
        invariant |out| == h - start && forall i | 0 <= i < |out| :: out[i] == headers[bestChain[start + i]].header
        invariant forall j | start <= j < h :: stop != 0 ==> bestChain[j] != stop
      {
        var hash := bestChain[h];
        out := out + [headers[hash].header];
        if stop != 0 && hash == stop {
          return;
        }
      }
    }

    /** The answer to a locator: from the child of its first hash on our best chain; from the genesis block's
        if it has none there. */
    method GetHeadersFromLocator(locator: seq<Hash>, stop: Hash) returns (out: seq<Header>)
      requires Valid()
      ensures AnswerFrom(headers, bestChain, StartAfter(headers, bestChain, locator), stop, out)
      ensures Begins(headers, bestChain, locator, out)
    {
      var start := FindStart(locator);
      out := Collect(start, stop);
      AnswerBegins(headers, bestChain, locator, stop, out);
    }

    /** How many blocks of a branch are off the best chain. */
    method BranchLength(k: Hash) returns (len: nat)
      requires Valid() && k in headers
      ensures ForksAt(rules, headers, bestChain, k, len)
    {
      ghost var c := Chain(rules, headers, k);
      len := 0;
      var h, cur := headers[k].height, k;
      while !(h < |bestChain| && bestChain[h] == cur)
        invariant cur in headers && h == headers[cur].height == headers[k].height - len && cur == c[h]
        invariant forall i | h < i <= headers[k].height :: i < |bestChain| ==> bestChain[i] != c[i]
        decreases h
      {
        if h > 0 { ChainStep(rules, headers, k, h - 1); }
        cur := headers[cur].header.prev;
        h := h - 1;
        len := len + 1;
      }
    }

    method BranchEnds() returns (ends: set<Hash>)
      ensures ends == Ends(headers)
    {
      var parents := set k | k in headers && headers[k].height > 0 :: headers[k].header.prev;
      ends := headers.Keys - parents;
    }

    /** Every branch end once, and among them one active: the tip. */
    method GetChainTips() returns (tips: seq<ChainTip>)
      requires Valid()
      ensures Reported(rules, headers, bestChain, tip, Ends(headers), tips)
      ensures exists i :: 0 <= i < |tips| && tips[i].active && tips[i].hash == tip
                          && forall j | 0 <= j < |tips| && j != i :: !tips[j].active
    {
      var ends := BranchEnds();
      tips := [];
      var rest := ends;
      while rest != {}
        invariant rest <= ends && Reported(rules, headers, bestChain, tip, ends - rest, tips)
        decreases rest
      {
        var k :| k in rest;
        var len := BranchLength(k);
        ReportMore(rules, headers, bestChain, tip, ends - rest, tips, ChainTip(k, headers[k].height, len, k == tip));
        assert ends - rest + {k} == ends - (rest - {k});
        tips := tips + [ChainTip(k, headers[k].height, len, k == tip)];
        rest := rest - {k};
      }
      assert ends - rest == ends;
      HeaviestIsChildless(rules, headers, tip);
      OneIsActive(rules, headers, bestChain, tip, ends - rest, tips);
    }

    /** Whether to ask a peer for a block just found missing. */
    method RecoveryDue(missing: Hash, proven: bool, now: real) returns (due: bool)
      modifies `recovery
      ensures (recovery, due) == Recovery.Due(old(recovery), missing, proven, now)
    {
      recovery := Recovery.Live(recovery, now);
      if missing !in recovery {
        recovery := recovery[missing := Recovery.Pending(now, 1)];
        due := true;
      } else if proven && recovery[missing].requests < Recovery.PEERS {
        recovery := recovery[missing := recovery[missing].(requests := recovery[missing].requests + 1)];
        due := true;
      } else {
        due := false;
      }
    }
  }

  /** Whether a block is a checkpoint not reached yet. */
  predicate Reaches(cps: Checkpoints, reached: Option<nat>, hash: Hash, height: nat) {
    height in cps && cps[height] == hash && !Passed(reached, height)
  }

  /** What noting `hash` leaves: nothing changes, or the checkpoint is reached and what is left is what
      it keeps, with the tip there was or else the heaviest. */
  ghost predicate Noted(r: Rules, cps: Checkpoints, f: Holding, hash: Hash, f': Holding)
    requires Rooted(r, f.headers) && hash in f.headers && f'.tip in f'.headers
  {
    if Reaches(cps, f.reached, hash, f.headers[hash].height) then
      && f'.reached == Some(f.headers[hash].height) && PrunedTo(r, f.headers, hash, f'.headers)
      && if f.tip in f'.headers then f'.tip == f.tip
         else forall k | k in f'.headers :: f'.headers[k].work <= f'.headers[f'.tip].work
    else f' == f
  }

  /** The parent of the block `i` steps back; past the last of them, the genesis block's. */
  lemma StepBack(r: Rules, hs: Headers, start: Hash, i: nat)
    requires Rooted(r, hs) && start in hs
    ensures i < hs[start].height ==>
              hs[Chain(r, hs, start)[hs[start].height - i]].header.prev == Chain(r, hs, start)[hs[start].height - i - 1]
    ensures i == hs[start].height ==> hs[Chain(r, hs, start)[0]].header.prev == r.genesis.prev
  {
    assert Linked(r, hs, r.Root());
    if i < hs[start].height { ChainStep(r, hs, start, hs[start].height - i - 1); }
  }

  /** The tree as it stands once a header is placed and its checkpoint noted, up to the tip. */
  lemma TakenIsGrown(r: Rules, cps: Checkpoints, f: Holding, h: Header, g: Headers, f': Holding)
    requires Inv(r, cps, f) && Takes(r, cps, f, h) && g == Place(r, f.headers, h) && Rooted(r, g)
    requires f'.tip in f'.headers
    requires Noted(r, cps, f.(headers := g), r.hash(h), f')
    ensures Grow(r, cps, f, h) ==
            f'.(tip := if Child(r, f.headers, h).work > f'.headers[f'.tip].work then r.hash(h) else f'.tip)
  {
    var k := r.hash(h);
    if Reaches(cps, f.reached, k, g[k].height) {
      NothingAboveANewCheckpoint(r, cps, f, h);
      SurvivorsOfTheHighest(r, g, k);
      var c := Chain(r, g, k);
      assert c[|c| - 1] in c;
      assert f'.tip in c;
      var i :| 0 <= i < |c| && c[i] == f'.tip;
      if i < g[k].height { ChainWork(r, g, k, i); }
      assert g[k].work <= g[f'.tip].work ==> f'.tip == k;
    }
  }
}
