# A model of the peer-to-peer observer

The observer keeps connections to as many Bitcoin nodes as it can and records what they say. This
project models the parts of it whose correctness spans many calls, and proves what they promise:

- **The header tree** (`Forest`, `TreeSpec`, `TreeRuns`, `Refusals`, `Pruning`, `Recovery`, `Locator`,
  `ChainTips`, `TreeFile`, `HeaderTree`, `TreeVerdicts`, `SyncSpec`, `SyncReach`, `HeaderSync`, `OpenNetwork`,
  `TreeCases`): a store of block headers that tolerates forks, selects the tip with the most work, enforces
  checkpoints by pruning, remembers refusals, throttles recovery requests, builds and answers locators, and is saved
  and replayed. `HeaderTree` is the object itself, field by field and method by method, proved against the functions
  of `TreeSpec`; the other modules prove what follows over whole runs, and for two trees talking to each other.
  `OpenNetwork` is a network whose hash is collision-free, and `TreeCases` builds concrete cases on it through
  the object.
- **The address book** (`Policy`, `Reservoir`, `Allocation`, `Book`, `AddressBook`, `BookRuns`): a bounded table of
  addresses with batch eviction, reservoir sampling, credit-based sharing of dials between classes, and
  retry and forget rules.
- **The manager and its tasks** (`Slots`, `Manager`): single-shot tasks that report over a FIFO queue,
  with a guard that sends one last message whatever becomes of them. `Slots` is the protocol as a
  step system; every method of `Manager` is one of its steps.
- **The v1 wire reader** (`ByteOrder`, `Framing`, `Wire`, `WireReader`): an incremental reader that may be
  interrupted at any wait, proved equal to reading the stream in one go.
- **Session limits and addrv2** (`Session`, `Addrv2`): token buckets over time, and the lenient reader of
  BIP155 address messages.
- **Codecs** (`Base32`, `PeerAddr`, `Archive`): base32, address text and archive framing, each with its
  inverse.

`dafny verify dfyconfig.toml` checks all of it.

## What is taken as given

Hashing, work, difficulty adjustment and the proof-of-work check are functions in `Forest.Rules`; work is
positive, and where two trees are compared (or a batch asks whether the tip has changed) the block hash is
collision-free. The order a hash map is walked in and every random draw are arbitrary. A wait of the wire reader may be cut
short by cancellation or by an error of the connection, at any moment. Message decoding,
checksums and the text of IP addresses are functions; `PeerAddr.Sound` says what is assumed of the last.
Credit is exact, in tenths of a dial, and token levels are exact reals.

## Where the code and its comments differ

- A tick can leave more attempts in flight than the configured maximum, although the comment on it says
  never (`observer/src/addresses/mod.rs:318-319`): operator addresses and reconnects are taken outside the
  room computed. `Managers.Manager.Tick` says exactly when it stays within, from any state, and
  `Managers.CeilingIsPassed` is a manager that one tick takes past it.
- The comment on sharing out dials says the weights hold at any budget
  (`observer/src/addresses/book.rs:723-724`). With candidates enough in every class they hold, to within one bound
  for all runs with budgets up to n, exactly if n is at most ten, the default (`Allocation.SharesHoldUpToTen`); a
  run of elevens puts the first class six tenths of a dial further behind every eight ticks, without end
  (`Allocation.ElevenDrifts`).
- Saving puts the active chain ahead of its equals so that a reload comes back on it
  (`observer/src/headertree.rs:833-840`). It does exactly if no block of the tip's work sits at a lower
  height (`TreeFile.LoadRestoresTheTip`); `TreeCases.ComesBackElsewhere` saves and loads a tree that does not.
- Asking a peer again for as long as something new comes back (`observer/src/protocol.rs:897-899`) need not end
  with the peer's work. Against a heavier peer it does exactly if it is not blocked to begin with: blocked is that
  the peer's answer to our locator would be cut at 2000 headers and the last of them weigh no more than our tip
  (`HeaderSync.Synchronise`). Where the blocks of the two trees have equal work, blocked is that our chain has at
  least 2000 blocks above genesis and shares none within 1128 of its tip with the peer's
  (`SyncReach.BlockedIfFar`). `TreeCases.StuckAt1129` is such a case.
- The base32 decoder is described as one to one (`observer/src/addresses/peer_addr.rs:242-248`). It accepts a
  superfluous last character, all zeros: `Base32.SpareCharacter`. It is one to one on exactly the lengths
  that leave fewer than five bits over (`Base32.OneSpelling`), which the lengths of hosts do.
- An address reached is said never to be evicted for a new one (`observer/src/addresses/book.rs:428-430`). It may
  be exactly if it is not the operator's, not in use and was last reached more than thirty days ago
  (`Book.ReachedMayGo`); `Book.AReachedEntryGoes` is a table that gives one up. For the same reason the end of a
  session longer than that forgets its address, however well it went: `Book.LongSessionIsForgotten`.

## Model

| member | source | states |
|---|---|---|
| `Forest.ChainWork` | observer/src/headertree.rs:418-441 | work strictly increases along an ancestry |
| `Forest.SharedEntriesAgree` | observer/src/headertree.rs:391-466 | two trees of the same rules give a block they both hold the same height and work |
| `Forest.PlaceKeepsSound` | observer/src/headertree.rs:391-466 | a lawful child of a held block leaves every block filed under its hash, above its parent, with its ancestry's work, and lawful |
| `TreeSpec.Objection` | observer/src/headertree.rs:494-545 | every reason to refuse a header whose parent is held is an other-chain reason |
| `TreeSpec.GrowKeepsInv` | observer/src/headertree.rs:304-383 | taking a header keeps: tree shape, most-work tip, checkpoints agreed with, nothing above an unreached checkpoint, a single chain below a reached one |
| `TreeSpec.InsertKeepsInv` | observer/src/headertree.rs:391-466 | any header at all keeps these and a memory of distinct, other-chain refusals within its limit |
| `TreeSpec.RememberAtTheLimit` | observer/src/headertree.rs:618-645 | at the limit, remembering is appending and dropping the least recently used |
| `TreeVerdicts.EveryBlockMetItsTarget` | observer/src/headertree.rs:518-538 | in every tree each block above genesis met, at heights divisible by 2016, the target adjusted from its ancestor 2016 lower to its parent, and at all others its parent's |
| `TreeVerdicts.AcceptedIffTargetMet` | observer/src/headertree.rs:494-545 | with an allowed target and no checkpoint in the way, a header above a held parent is accepted if and only if it meets that target |
| `TreeVerdicts.VerdictIfHeld` | observer/src/headertree.rs:391-400 | a header is known if and only if it is held, whatever its parent |
| `TreeVerdicts.VerdictWithParent` | observer/src/headertree.rs:494-545 | what is said of a header above a held parent: the first of easy target, another checkpoint, at or below the one reached, that target not met; else accepted |
| `TreeVerdicts.VerdictWithoutParent` | observer/src/headertree.rs:402-417 | what is said of any other: its refused parent's reason; weaker, if four times its difficulty is less than our tip's and difficulty counts; else orphan |
| `TreeVerdicts.RefusalsAreRemembered` | observer/src/headertree.rs:402-417 | every refusal but an orphan's is remembered, an orphan's leaves the memory as it is |
| `TreeVerdicts.WorkIsTheSum` | observer/src/headertree.rs:418-441 | a block's work is that of the genesis block and every block up to it, each once |
| `TreeVerdicts.FirstRefusalIsTheFirst` | observer/src/headertree.rs:469-492 | the refusal a batch reports is the first one of it |
| `TreeRuns.MemoryIsInert` | observer/src/headertree.rs:391-466 | over any run, what is remembered of refusals never changes which headers are taken or known |
| `TreeRuns.InheritingKeepsTheParent` | observer/src/headertree.rs:402-414 | recording a child that inherits its parent's refusal never forgets the parent |
| `TreeRuns.RefusedRootRefusesItsChildren` | observer/src/headertree.rs:402-414 | a remembered root fed any number of its children refuses all of them with its own reason |
| `TreeRuns.OneHeaderPerHeight` | observer/src/headertree.rs:304-383 | at or below a reached checkpoint every height holds exactly one header |
| `TreeRuns.CheckpointFreezes` | observer/src/headertree.rs:494-516 | over any run from a reached checkpoint, what is at or below it stays as it is |
| `TreeRuns.ReachingACheckpoint` | observer/src/headertree.rs:304-383 | the insert that reaches a checkpoint leaves exactly that block and its ancestors, unchanged, and makes it the tip |
| `TreeRuns.NothingAboveANewCheckpoint` | observer/src/headertree.rs:304-383 | when a checkpoint is reached nothing above it is held |
| `TreeRuns.OrderDoesNotMatter` | observer/src/headertree.rs:391-466 | without checkpoints, any two parent-first orders of the same headers give the same headers, heights, works and tip work |
| `TreeRuns.Confluence` | observer/src/headertree.rs:391-466 | two forests over one base that can take no more from a pool are equal |
| `TreeRuns.EachPassPlacesAGeneration` | observer/src/headertree.rs:469-492 | a tree re-fed the same headers, in any order each time, holds after d passes what can be placed at depth d |
| `TreeRuns.PassesPlaceAll` | observer/src/headertree.rs:469-492 | as many passes over the tree as the set is deep place all of it, and nothing else |
| `TreeRuns.TipDoesNotComeBack` | observer/src/headertree.rs:469-492 | comparing the tip with the one before a batch tells whether the best chain needs rebuilding: once changed it does not change back |
| `Refusals.PushTo` | observer/src/headertree.rs:618-645 | the two refusal maps stay mutual inverses and list one entry more, last |
| `Refusals.Move` | observer/src/headertree.rs:650-657 | renumbering an entry in both maps moves it to the back of the list |
| `Refusals.Forget` | observer/src/headertree.rs:618-645 | dropping the lowest number from both maps drops the first of the list |
| `Pruning.SurvivorsOfTheHighest` | observer/src/headertree.rs:323-383 | pruning to a checkpoint nothing stands above leaves its ancestry: the second pass has nothing to remove |
| `HeaderTrees.HeaderTree.RememberRejected` | observer/src/headertree.rs:618-645 | the two maps refine remembering in a last-used list of 8192 |
| `HeaderTrees.HeaderTree.TouchRejected` | observer/src/headertree.rs:650-662 | and moving an entry to its back |
| `HeaderTrees.HeaderTree.WalkBack` | observer/src/headertree.rs:547-554 | finds the ancestor that many steps back, never failing where there are that many; fails from a block not held, and past the genesis block |
| `HeaderTrees.HeaderTree.RebuildBestChain` | observer/src/headertree.rs:556-569 | leaves exactly the tip's ancestry, by height |
| `HeaderTrees.HeaderTree.PruneBelowCheckpoint` | observer/src/headertree.rs:323-383 | with no checkpoint reached, nothing; else keeps what is comparable with it, keeps the tip or moves it to the heaviest left, counts what it removed, and rebuilds the cache if that is anything |
| `HeaderTrees.HeaderTree.NoteCheckpoint` | observer/src/headertree.rs:304-321 | a checkpoint's block raises the height reached and prunes, any other changes nothing; the cache and the dirty flag follow what was pruned |
| `HeaderTrees.HeaderTree.ValidateHeader` | observer/src/headertree.rs:494-545 | the first objection in order, and none unless the target asked is met: at heights divisible by 2016 the one adjusted from the ancestor 2016 lower, else the parent's |
| `HeaderTrees.HeaderTree.Accept` | observer/src/headertree.rs:418-466 | the tree grown by the header, pruned if it reaches a checkpoint; the cached chain is stale only if the tip changed |
| `HeaderTrees.HeaderTree.RefuseUnplaced` | observer/src/headertree.rs:402-417 | the reason for a header without a parent: inherited, weaker chain, or orphan; and what is remembered of it |
| `HeaderTrees.HeaderTree.InsertInner` | observer/src/headertree.rs:391-466 | one header: the verdict and the whole new tree, as the functions of `TreeSpec` give them |
| `HeaderTrees.HeaderTree.InsertBatch` | observer/src/headertree.rs:469-492 | the batch's run, the count taken and the first refusal; afterwards the cache is the tip's ancestry and the tip has the most work |
| `HeaderTrees.HeaderTree.constructor` | observer/src/headertree.rs:253-296 | a new tree holds the genesis block, and has reached a checkpoint at height 0 if that is one |
| `HeaderTrees.HeaderTree.Load` | observer/src/headertree.rs:864-910 | the file replayed into a fresh tree, the cache rebuilt, dirty only if something was pruned |
| `HeaderTrees.HeaderTree.Save` | observer/src/headertree.rs:825-862 | writes when dirty: every header once, by height, best chain first, then by hash |
| `TreeFile.SavedInOneOrder` | observer/src/headertree.rs:833-852 | a tree is saved in one order only, whatever order its map is walked in |
| `TreeFile.LoadRestores` | observer/src/headertree.rs:825-905 | saving then loading skips and prunes nothing and restores every header, height, work, the checkpoint reached and the tip's work |
| `TreeFile.LoadRestoresTheTip` | observer/src/headertree.rs:825-905 | the tip comes back if and only if no block of its work sits lower |
| `TreeFile.TheLowerOfATieWins` | observer/src/headertree.rs:833-840 | a tree, on a collision-free network, that no listing of it brings back on its own tip |
| `TreeCases.ComesBackElsewhere` | observer/src/headertree.rs:825-905 | that tree built, saved and loaded through the object: the same headers on another tip |
| `OpenNetwork.OpenRulesAreCollisionFree` | observer/src/headertree.rs:391-394 | there are rules with a collision-free hash, whatever the work of a block |
| `HeaderTrees.HeaderTree.BuildLocator` | observer/src/headertree.rs:703-732 | names the best chain's blocks at the locator heights |
| `Locator.HeightsDescend` | observer/src/headertree.rs:703-732 | those heights descend strictly from the tip to genesis |
| `Locator.LocatorIsShort` | observer/src/headertree.rs:703-732 | for every 32-bit height there are at most 44 of them |
| `Locator.LocatorReaches` | observer/src/headertree.rs:703-732 | a fork d blocks below the tip is matched fewer than d blocks below the fork |
| `Locator.LocatorGap` | observer/src/headertree.rs:703-732 | no locator names a block more than 1128 and less than 2152 below the tip, but for genesis |
| `Locator.NamedWithin` | observer/src/headertree.rs:703-732 | a block within 1128 of the tip has a named one at or below it that is, too |
| `HeaderTrees.HeaderTree.GetHeadersFromLocator` | observer/src/headertree.rs:736-769 | the best chain's headers, from the child of the first listed hash on it, or of genesis if none is listed, to the stop hash, 2000 of them or the tip; empty only if there is no such child |
| `Locator.StartMatches` | observer/src/headertree.rs:736-769 | a locator with a block of the best chain in it is answered from one of its own blocks |
| `Locator.StartUnmatched` | observer/src/headertree.rs:744-755 | a locator with no block of the best chain is answered from height 1 |
| `Locator.StartMatched` | observer/src/headertree.rs:744-755 | any other from above the first listed block of it |
| `Locator.AnswerBegins` | observer/src/headertree.rs:736-769 | the first header of the answer in either case, and when there is none |
| `Locator.AnswerEnds` | observer/src/headertree.rs:756-769 | an answer ends with the stop hash if that is among its first 2000, and otherwise after 2000 or at the tip |
| `HeaderTrees.HeaderTree.BranchLength` | observer/src/headertree.rs:776-821 | the walk off a branch ends at its fork point on the best chain |
| `HeaderTrees.HeaderTree.GetChainTips` | observer/src/headertree.rs:776-821 | one report for each childless block, described by its fork; exactly one, the tip, is active |
| `HeaderTrees.HeaderTree.RecoveryDue` | observer/src/headertree.rs:675-695 | one request granted or not, and the requests kept |
| `Recovery.OthersDoNotMatter` | observer/src/headertree.rs:675-695 | over any run, what is asked about other blocks changes nothing for this one |
| `Recovery.RequestsAreThrottled` | observer/src/headertree.rs:675-695 | requests for one absent block: at most three to a round, rounds at least ten seconds apart, over any span of any run |
| `Recovery.RoundSoFar` | observer/src/headertree.rs:675-695 | in a round of ten seconds exactly min(3, 1 + requests by peers proven to have the block) are granted |
| `Recovery.GrantedInRound` | observer/src/headertree.rs:675-695 | the first request is granted to whoever asks, in the round only two more and to proven peers, and after it again to whoever asks |
| `Recovery.GrantedOncePlaced` | observer/src/headertree.rs:442-444 | once the block turned up the next request for it is granted to whoever asks |
| `SyncSpec.AnswerStartsOnOurChain` | observer/src/protocol.rs:1342-1365 | the peer matches our locator on a block both best chains share; the 101-hash cut never touches it |
| `SyncSpec.OnlyTheNewestCount` | observer/src/protocol.rs:1342-1365 | of a longer locator only the first 101 hashes count, whatever follows them |
| `SyncSpec.AnswerIsTaken` | observer/src/headertree.rs:469-492 | every header of the answer is accepted or already held |
| `SyncSpec.AnswerCatchesUp` | observer/src/headertree.rs:736-769 | if at most 2000 headers lie above the match, our tip then has at least the peer's work |
| `SyncSpec.MatchIsNearTheFork` | observer/src/headertree.rs:703-769 | the match lies closer below the fork than the fork below our tip |
| `SyncReach.ReachedIfNear` | observer/src/headertree.rs:703-769 | an answer can reach above our tip if and only if our chain is shorter than one answer or shares a block within 1128 of its tip |
| `SyncReach.OtherwiseItMoves` | observer/src/protocol.rs:857-902 | an answer that is not cut at or below our tip's work brings the peer's work, or something new and our tip onto the peer's best chain |
| `SyncReach.OnTheirsIsOpen` | observer/src/headertree.rs:703-769 | with our tip on the peer's best chain the next answer is not blocked |
| `SyncReach.BlockedIfFar` | observer/src/headertree.rs:703-769 | where the blocks of both trees have equal work, a heavier peer's answer is blocked if and only if the fork is far |
| `SyncReach.CutLeavesTheTip` | observer/src/protocol.rs:857-902 | an answer cut at or below our tip's work leaves the tip where it is, whatever it brings |
| `HeaderSync.Exchange` | observer/src/protocol.rs:857-902 | one question and answer between two trees: what was learned, the new tree and the count taken |
| `HeaderSync.Synchronise` | observer/src/protocol.rs:857-902 | asking again while something new comes ends, with at least the peer's work, or with a full answer already held whose last header weighs no more than our tip; it catches up with a heavier peer if and only if it is not blocked before the first question |
| `HeaderSync.SynchroniseEven` | observer/src/protocol.rs:857-902 | where the blocks of both trees have equal work, if and only if the fork is near |
| `HeaderSync.Ask` | observer/src/protocol.rs:1342-1365 | the peer's answer is empty or starts on a child of our best chain, and can reach above our tip if and only if the fork is near |
| `TreeCases.AskAcross` | observer/src/protocol.rs:857-902 | two trees built with a fork of any depth: asking across it catches up if and only if it is at most 1128 deep or our chain has fewer than 2000 blocks above genesis |
| `TreeCases.StuckAt1129` | observer/src/protocol.rs:857-902 | at 1129 it ends short of a peer one block ahead |
| `Session.RefillInSteps` | observer/src/protocol.rs:1225-1232 | refilling in two steps lands where one would |
| `Session.Limits.MayAnswerGetheaders` | observer/src/protocol.rs:1330-1340 | a token spent if there is one |
| `Session.Limits.OfferGossip` | observer/src/protocol.rs:1211-1300 | what is passed on: a solicited reply whole, anything else as far as tokens go; a peer's own announcement is not the reply |
| `Session.RunKeepsBalance` | observer/src/protocol.rs:1211-1340 | over any run each bucket stays within its bounds, and what was taken with what is left never exceeds the burst and the time's refill |
| `Session.SpanIsLimited` | observer/src/protocol.rs:1211-1340 | over any span of T seconds: at most 4 + T/30 getheaders answers and 1000 + T/10 unsolicited addresses |
| `Session.RepliesAreAskedFor` | observer/src/protocol.rs:1211-1223 | announcements let past the limit are no more than the times we asked |
| `Session.RepliesAreRecognised` | observer/src/protocol.rs:1217-1223 | a message is taken for the reply to our getaddr, and passed on whole, if and only if one is awaited and it is not the peer's own address alone; nothing else ends the wait |
| `Session.AnsweredIfItFits` | observer/src/protocol.rs:1330-1340 | over any run of a session a getheaders is answered if and only if every span ending with it then keeps within 4 + T/30 answers |
| `Session.PassedIfTheyFit` | observer/src/protocol.rs:1225-1245 | of addresses nobody asked for exactly as many are passed on as keep every span within 1000 + T/10 |
| `Addrv2.CompactReads` | observer/src/protocol.rs:1420-1478 | every compact size reads back, whatever follows |
| `Addrv2.CompactWrites` | observer/src/protocol.rs:1420-1478 | what reads as a compact size is its one encoding |
| `Addrv2.ItemReads` | observer/src/protocol.rs:1440-1475 | every framed entry reads back, whatever follows |
| `Addrv2.ItemWrites` | observer/src/protocol.rs:1440-1475 | what reads as an entry is that entry's encoding |
| `Addrv2.WellFramed` | observer/src/protocol.rs:1420-1478 | a well-framed message is gone through whole, and its declared count reported |
| `Addrv2.FollowedAsFar` | observer/src/protocol.rs:1420-1478 | any bytes are gone through exactly up to the count or to the first entry whose framing breaks |
| `Addrv2.LenientAgrees` | observer/src/protocol.rs:1420-1478 | where the strict decoder succeeds the lenient reader gives the same count and entries |
| `Addrv2.CompactLooksLike` | observer/src/protocol.rs:1428-1430 | compact sizes byte by byte, the lowest first |
| `Addrv2.EntryReads` | observer/src/protocol.rs:1437-1464 | an entry byte by byte: the time's lowest byte first, the port's highest |
| `Addrv2.EntryIsKept` | observer/src/protocol.rs:1466-1475 | what is kept of it: address, port, time and services if its network and address, with its length, decode |
| `Addrv2.KeptInOrder` | observer/src/protocol.rs:1437-1476 | entries come out one by one in their order |
| `Framing.FramedIsWritten` | observer/src/protocol.rs:1437-1476 | for any canonical reader, the items read are what the bytes were written from, up to the count or the first that cannot be read |
| `Framing.CutStreamReads` | observer/src/transport.rs:324-420 | for any format whose frames read back, a stream cut anywhere reads as its whole frames and then as closed or cut short |
| `Addrv2.ParseLeniently` | observer/src/protocol.rs:1420-1478 | the count and, in order, the entries gone through whose address decodes; entries ≤ count ≤ length/9 |
| `Wire.StuckForEver` | observer/src/transport.rs:353-398 | a fault that used nothing up comes back for ever |
| `Wire.StuckOn` | observer/src/transport.rs:347-445 | the reader is stuck exactly on a foreign magic, an oversized length, an incomplete frame or a wrong checksum |
| `Wire.MessagesAreBounded` | observer/src/transport.rs:325-490 | each message uses up at least 24 bytes, over any number of reads |
| `Wire.FrameReads` | observer/src/transport.rs:402-488 | a written frame reads back, whatever follows |
| `Wire.UndecodableReads` | observer/src/transport.rs:43-54 | a whole frame that will not decode is Unknown, with its bytes, if its command up to the first zero, or all twelve bytes of it, is a command string, and a decode fault if not; used up either way |
| `Wire.DecodableReads` | observer/src/transport.rs:447-476 | one that decodes is its message, whatever its command |
| `Wire.FrameLooksLike` | observer/src/transport.rs:522-531 | a frame byte by byte |
| `Wire.FaultOf` | observer/src/transport.rs:329-445 | each fault and when it is the one reported, with the length byte by byte; none uses anything up |
| `Wire.CutStreamOfFrames` | observer/src/transport.rs:325-420 | frames cut anywhere read as the whole ones, then PeerClosed exactly on a frame boundary and Truncated otherwise |
| `WireReaders.Reader.Fill` | observer/src/transport.rs:329-351 | reads in pieces of any size lose and reorder nothing, and go on until the buffer is full, the stream ends or a wait is cut short |
| `WireReaders.Reader.ReadHeader` | observer/src/transport.rs:325-400 | a header refused is left in place; one accepted makes room for its payload |
| `WireReaders.Reader.OpenFrame` | observer/src/transport.rs:422-488 | a whole frame: checksum first, then the message, or its bytes under a readable command, counted |
| `WireReaders.Reader.Recv` | observer/src/transport.rs:324-490 | a call gives what the pending stream read in one go gives and leaves the rest; it gives nothing, and loses nothing, exactly if its wait was cut short |
| `WireReaders.Reader.RecvMany` | observer/src/transport.rs:324-490 | any calls with any chunking and cancellations give the first results of the stream read in one go, one for every call not cut short, and the payloads handed up undecoded are counted |
| `Policy.BackoffIsExact` | observer/src/addresses/policy.rs:325-328 | saturation never shows: a backoff is the exact power, at most the cap |
| `Policy.BackoffDoubles` | observer/src/addresses/policy.rs:325-328 | backoffs double, once or twice each time, up to the cap |
| `Policy.JitterIsClose` | observer/src/addresses/policy.rs:332-336 | a delay is spread by a tenth and rounding at most, and to one second at least |
| `Policy.JitterReaches` | observer/src/addresses/policy.rs:332-336 | and over every second nearer than a tenth |
| `Reservoir.OfferKeepsSample` | observer/src/addresses/book.rs:238-251 | the sample is always min(k, n) distinct offered items |
| `Reservoir.Sampler.Offer` | observer/src/addresses/book.rs:238-251 | one offer: kept while there is room, then in place of the drawn item |
| `Reservoir.EveryItemIsAsLikely` | observer/src/addresses/book.rs:223-252 | of all the ways the draws can go over n ≥ k distinct items, exactly k in n end with any given item in the sample |
| `Reservoir.KeptCounts` | observer/src/addresses/book.rs:223-252 | the number proved on is the number of those ways |
| `Reservoir.OutcomesAreSamples` | observer/src/addresses/book.rs:223-252 | each of them ends with k distinct items of the stream |
| `Allocation.NothingIsWasted` | observer/src/addresses/book.rs:703-753 | slots handed out are min(budget, candidates), to no class more than it has |
| `Allocation.AllocateIsFair` | observer/src/addresses/book.rs:703-753 | whatever candidates there are: 7, 2 and 1 tenths earned up to four dials, one charged for each, and a class that got one owed at least as much as any with a candidate left |
| `Allocation.CreditStaysInBounds` | observer/src/addresses/book.rs:733-748 | credit stays within four dials either way |
| `Allocation.SteadyRun` | observer/src/addresses/book.rs:703-753 | over all runs with candidates enough and budgets up to ten, no credit meets the lower bound and only the first class's is cut; with budgets up to five none is |
| `Allocation.SharesHold` | observer/src/addresses/book.rs:703-753 | each class then stays within four dials ahead and 7.3 behind its 70/20/10 share; with budgets up to five, within six tenths of one |
| `Allocation.SharesHoldUpToTen` | observer/src/addresses/book.rs:718-725 | one bound on the deviation holds for all such runs with budgets up to n, if and only if n is at most ten |
| `Allocation.ElevenDrifts` | observer/src/addresses/book.rs:718-725 | ticks of eleven put the first class six tenths of a dial further behind every eight ticks |
| `Allocation.DealIsDealt` | observer/src/addresses/book.rs:730-750 | where slots go: each class that got one was owed as much as any other, the first of equals |
| `Book.BatchSize` | observer/src/addresses/book.rs:436-440 | an eviction batch is the sixteenth of the table, one at least and 1024 at most |
| `Book.ProtectedStays` | observer/src/addresses/book.rs:436-488 | eviction never takes an operator's entry, one in use, or one reached within thirty days |
| `Book.ReachedMayGo` | observer/src/addresses/book.rs:436-488 | a once-reached entry may be evicted if and only if it is not protected |
| `Book.UnreachedMayGo` | observer/src/addresses/book.rs:436-488 | one never reached may be evicted if and only if it is gossip's, not in use, and past its forget rule or without failures when fewer than a batch are past theirs |
| `Book.AReachedEntryGoes` | observer/src/addresses/book.rs:428-431 | a table that gives up a once-reached entry for a newcomer, however eviction goes |
| `AddressBooks.AddressBook.EvictBatch` | observer/src/addresses/book.rs:436-488 | exactly min(batch, evictable) go, the untried only once every forgettable one has gone |
| `Book.HeardKeeps` | observer/src/addresses/book.rs:370-399 | one gossiped address: within capacity or the size before, nothing protected lost, only an admitted address new |
| `Book.HeardIsFiled` | observer/src/addresses/book.rs:370-399 | one admitted address and its whole entry: heard now, the services announced, history kept, v2 worth another attempt if newly advertised; a newcomer due at once |
| `AddressBooks.AddressBook.Ingest` | observer/src/addresses/book.rs:370-399 | a message is heard address by address: each refreshed, admitted, or dropped because nothing is evictable; exactly the newcomers counted; the table bounded and nothing protected lost |
| `Book.HeardAllKeeps` | observer/src/addresses/book.rs:370-399 | at every point of a message the table is within its capacity or its first size, with everything protected in it |
| `Book.AllGetIn` | observer/src/addresses/book.rs:370-399 | while there is room every admitted address gets in, and the count is of the new ones |
| `AddressBooks.AddressBook.InsertManual` | observer/src/addresses/book.rs:403-422 | every address given is there as the operator's, others unchanged; counts those that were not |
| `Book.SuppliedAs` | observer/src/addresses/book.rs:403-422 | one the operator supplies keeps its history, or is due at once with none; every other stays as it is |
| `AddressBooks.AddressBook.PurgeBanned` | observer/src/addresses/book.rs:491-495 | exactly the banned go, and are counted |
| `AddressBooks.AddressBook.RecordConnected` | observer/src/addresses/book.rs:508-541 | in use as connected, known or not; a known entry is good, without failures, and speaks v2 if the session does or it did; nothing else changes |
| `AddressBooks.AddressBook.RecordEnded` | observer/src/addresses/book.rs:547-611 | freed, known or not; a known entry judged and kept or forgotten; kept, its next attempt is within a tenth of the seconds its outcome, origin and counters call for |
| `AddressBooks.AddressBook.RecordV1Only` | observer/src/addresses/book.rs:615-621 | leaves a verdict on the address, which overwrites none |
| `Book.V2IsNeverLost` | observer/src/addresses/book.rs:34-48 | over any gossip, dials, handshakes, fallbacks and outcomes a kept entry is filed as v2 if and only if it was or a handshake since used v2 |
| `Book.HandshakeMeans` | observer/src/addresses/book.rs:508-541 | a handshake makes an entry good; when it is then filed as v2, and when as v1 only |
| `Book.FiledAs` | observer/src/addresses/book.rs:34-48 | how an entry is filed as v2, v1 only or neither after anything that can happen to it |
| `Book.HistoryIsLast` | observer/src/addresses/book.rs:370-541 | over any run an entry gives the last time it was announced, dialled and reached, and the last services |
| `Book.CountersCount` | observer/src/addresses/book.rs:547-592 | over any run the counters are the short sessions and the failures in a row, in a byte each |
| `Book.HowItEnds` | observer/src/addresses/book.rs:555-592 | the class after each outcome: our faults leave it, failures cost a good address its standing, answers restore it |
| `Book.NeverReachedWaits` | observer/src/addresses/policy.rs:315-368 | an address never reached and still kept waits an exact power of four hours: it is forgotten before the week's cap is met |
| `Book.SettledIsRetried` | observer/src/addresses/book.rs:547-611 | when the next attempt is, in seconds, for every outcome, origin and history, within a tenth: 5, 30, 60, 3600, 86400, or doubled from 60 up to 3600 or 21600, or twice doubled from 3600 up to 604800 |
| `Book.NeverReachedIsForgotten` | observer/src/addresses/policy.rs:342-368 | one never reached is forgotten if and only if it is gossip's and has five failures in a row, or three and no announcement for thirty days |
| `Book.LongSessionIsForgotten` | observer/src/addresses/policy.rs:354-358 | whatever its outcome, a session's end forgets its address if and only if that came from gossip and the handshake is more than thirty days ago |
| `AddressBooks.AddressBook.AllocateDials` | observer/src/addresses/book.rs:703-753 | the loop hands out slots as the specification does |
| `Book.AttemptedAs` | observer/src/addresses/book.rs:500-505 | exactly the addresses picked are marked as attempted now |
| `Book.PickedIsDue` | observer/src/addresses/book.rs:632-696 | a pick hands out only due addresses without a task, none twice, and exactly min(budget, manual) + min(25, good) + min(budget, rest) of them |
| `Book.PickedIsShared` | observer/src/addresses/book.rs:632-696 | by class and origin of the addresses picked: credit's shares of unknown, once reached and never reached, up to 25 good, and the operator's |
| `BookRuns.SharesOfClasses` | observer/src/addresses/book.rs:632-753 | over any run of picks with candidates enough and budgets up to ten, the dials of each class stay within four ahead and 7.3 behind its 70/20/10 share of the budgets |
| `AddressBooks.AddressBook.Pick` | observer/src/addresses/book.rs:632-696 | due addresses, none twice, shared out by class and origin as `SharedOut` says; each with the hint of its entry, marked as in use and as attempted now |
| `Slots.StepKeepsInv` | observer/src/addresses/mod.rs:128-162 | every step of manager, task and environment keeps: one attempt or undelivered end for each address in use, none for any other, and an end to come after every report of a connection |
| `Slots.OneAttemptEach` | observer/src/addresses/mod.rs:317-353 | so it is at every moment of every run |
| `Slots.FreedBetween` | observer/src/addresses/mod.rs:439-493 | in every run an address is handed out again only after the end of its last attempt was delivered |
| `Slots.NothingLeaks` | observer/src/addresses/mod.rs:117-162 | once no task runs, delivering what was sent leaves no address in use |
| `Slots.InFlightIfUnheard` | observer/src/addresses/mod.rs:317-353 | in every run the attempts in flight are those handed out since when neither connection nor end was delivered |
| `Managers.Manager.Tick` | observer/src/addresses/mod.rs:317-331 | a step that hands out due addresses without a task: in number min(operator's, b) + min(good, 25) + min(others, b), b being the least of the limit for a tick and the room; it ends within the maximum in flight if and only if `StaysWithin` |
| `Managers.Manager.constructor` | observer/src/addresses/mod.rs:293-309 | starts with the snapshot less what is banned, and nothing in use |
| `Managers.Manager.Send` | observer/src/addresses/mod.rs:186-196 | a running task's report is a step |
| `Managers.Manager.AddManual` | observer/src/addresses/mod.rs:312-314 | leaves the slots alone; every address given is the operator's, and those that were not are counted |
| `Managers.Manager.DropGuard` | observer/src/addresses/mod.rs:150-162 | the guard's message, a failure unless the attempt said otherwise, is a step |
| `Managers.Manager.Apply` | observer/src/addresses/mod.rs:333-353 | recording the oldest message is a step, and what it does to the table |
| `Managers.Manager.Drain` | observer/src/addresses/mod.rs:462-470 | the whole queue is worked off; with no task running nothing stays in use |
| `Managers.Manager.Ingest` | observer/src/addresses/mod.rs:355-357 | gossip is heard address by address, leaves the slots alone, keeps what is protected, and adds nothing banned |
| `Managers.Manager.Ban` | observer/src/addresses/mod.rs:372-394 | a ban leaves the slots alone and drops and counts exactly what it covers, if it is new |
| `Managers.WhenTheCeilingHolds` | observer/src/addresses/mod.rs:317-331 | a tick ends within the maximum if and only if it starts within, and all it wants fits or, with no good address due, only one other kind is; and by how much it can go past |
| `Managers.CeilingIsPassed` | observer/src/addresses/mod.rs:317-331 | a new manager with one good and one untried address due and a maximum of one: a tick leaves two in flight |
| `Base32.RoundTrip` | observer/src/addresses/peer_addr.rs:222-271 | every encoding decodes to its bytes |
| `Base32.OneSpelling` | observer/src/addresses/peer_addr.rs:242-271 | a string that decodes is the encoding of its result if and only if it leaves fewer than five bits over |
| `Base32.SpareCharacter` | observer/src/addresses/peer_addr.rs:242-271 | a string that decodes and is not an encoding |
| `Base32.EncodedAt` | observer/src/addresses/peer_addr.rs:222-241 | every character stands for five bits, the highest first, in the alphabet a-z2-7, zeros after the last |
| `Base32.EncodeBytes` | observer/src/addresses/peer_addr.rs:222-241 | the loop over a 64-bit word gives the encoding |
| `Base32.DecodeString` | observer/src/addresses/peer_addr.rs:249-271 | the loop over a 32-bit word gives the decoding, or refuses |
| `PeerAddr.OnionKeyIff` | observer/src/addresses/peer_addr.rs:283-308 | a hostname names a key if and only if it is the one the key is printed as |
| `PeerAddr.OneOnionHost` | observer/src/addresses/peer_addr.rs:129-161 | whatever parses as an onion address has, lowered, that one host |
| `PeerAddr.OneI2pHost` | observer/src/addresses/peer_addr.rs:129-161 | whatever parses as an I2P address has, lowered, the one host its hash is printed as |
| `PeerAddr.ParseUndoesDisplay` | observer/src/addresses/peer_addr.rs:112-161 | on all five networks, what is printed parses back if and only if the address is normalised |
| `PeerAddr.FromSocketIsNormal` | observer/src/addresses/peer_addr.rs:163-177 | addresses read off sockets are normalised |
| `PeerAddr.KnownAs` | observer/src/addresses/peer_addr.rs:163-177 | an IPv4 address mapped into IPv6 is that address, one in fc00::/8 is Cjdns, any other is itself |
| `PeerAddr.PrintedAs` | observer/src/addresses/peer_addr.rs:293-325 | each kind as it is printed; an onion host is 56 characters of key, checksum and a 3 |
| `PeerAddr.ShownAs` | observer/src/addresses/peer_addr.rs:311-322 | numbers are printed in decimal, digit by digit |
| `PeerAddr.PortsRead` | observer/src/addresses/peer_addr.rs:129-161 | a port is decimal and fits sixteen bits, with or without a plus |
| `PeerAddr.CaseIsIgnored` | observer/src/addresses/peer_addr.rs:129-133 | text parses as it does with its letters raised |
| `Archive.VarintReads` | tools/archive/src/read.rs:116-140 | every length reads back, whatever follows |
| `Archive.VarintByte` | tools/archive/src/archiver.rs:344-351 | a length is written seven bits to a byte, lowest first, in as few as it fits in |
| `Archive.LengthsRead` | tools/archive/src/read.rs:116-140 | for any bytes: when a length is clean at its end, cut, malformed or read, and that it fits 64 bits |
| `Archive.RecordReads` | tools/archive/src/archiver.rs:344-351 | a record reads back if and only if it is within 16 MiB; a longer one is written all the same and refused |
| `Archive.CutArchiveReads` | tools/archive/src/read.rs:82-140 | a prefix with the header in it reads as a prefix of the records, ending cleanly if and only if the cut is on a record boundary |
| `Archive.CutHeader` | tools/archive/src/read.rs:58-72 | without a whole header there is no archive |
| `Archive.ArchiveReads` | tools/archive/src/read.rs:82-140 | a whole archive reads as exactly its records, in order, and ends cleanly |
| `Archive.ArchiveFile.WriteRecord` | tools/archive/src/archiver.rs:344-351 | appends one record, and the count of bytes stays the size of the file |
| `Archive.ArchiveFile.NeedsRotation` | tools/archive/src/archiver.rs:353-362 | full exactly when the file is as long as the limit |
| `Archive.ArchiveReader.ReadLength` | tools/archive/src/read.rs:116-140 | the byte loop reads a length, a clean end, a cut one or a malformed one |
| `Archive.ArchiveReader.Next` | tools/archive/src/read.rs:82-104 | one record or error, and where the reader then is |
| `Archive.ArchiveReader.Open` | tools/archive/src/read.rs:58-72 | opens exactly on a decodable header, and leaves the records |

## Left out

- Widths: heights are unbounded in the tree (32 bits in the source, and bounded where the locator needs it), and so is the number that orders refusals.
- Checkpoints are one hash per height, as merging them leaves them; the merge itself is not modelled.
- Expected targets follow the parent or the adjustment; the arithmetic of targets, work and difficulty is in functions.
- Session.Limits.OfferGossip: the published event and its counters are left out; levels are exact, not floating point.
- Allocation.SharesHold: credit is exact, not floating point; with budgets above ten there is no such bound.
- AddressBooks.AddressBook.RecordEnded: the jitter is exact, not floating point, and its draw is given.
- Managers.Manager.Ban: a ban is the addresses it covers; matching by network prefix and host and the ban file are left out.
- The bootstrap connection, which does not go through the manager's slots.
- The order in which the manager's event loop takes its sources: every interleaving is covered instead.
- Wire: the reader of the encrypted transport, and which bytes decode to which message.
- Archive.ArchiveReader.Next: after running out inside a record the reader is at the end of its file.
- Compression, protobuf bodies, rotation of compressed files, file names and times.
- File and socket input and output, settings, logging, publishing and RPC; reading and writing the snapshot of the book.
- Connection statistics, events and metrics, which only count.
