/**
 What the header tree does, as functions of values: which headers it takes, what a reached
 checkpoint leaves, and which refusals it remembers. `HeaderTree` is proved against this.
 */
module TreeSpec {
  import opened Basics
  import opened Forest

  datatype HeaderError =
    | OrphanHeader
    | WeakerChain
    | InvalidPow
    | TargetTooEasy
    | CheckpointMismatch
    | ForkBelowCheckpoint
  {
    /** The peer follows a chain we will never accept, rather than being ahead of us. */
    predicate IsOtherChain() { !OrphanHeader? }
  }

  /** Checkpoints by height. */
  type Checkpoints = map<nat, Hash>

  /** The part of a tree that decides what is accepted. */
  datatype Holding = Holding(headers: Headers, tip: Hash, reached: Option<nat>)

  datatype Verdict = Accepted | Known | Refused(reason: HeaderError)

  // ---- Invariant ---------------------------------------------------------------------------

  /** A header at a checkpoint height is the checkpoint. */
  ghost predicate Agreed(cps: Checkpoints, hs: Headers) {
    forall k | k in hs && 0 < hs[k].height && hs[k].height in cps :: k == cps[hs[k].height]
  }

  /** Nothing stands at or above a checkpoint not reached yet. */
  ghost predicate Awaited(cps: Checkpoints, f: Holding) {
    forall k, c | k in f.headers && c in cps && 0 < c && !Passed(f.reached, c) :: f.headers[k].height < c
  }

  /** A reached checkpoint is held, and everything at or below it is its ancestry. */
  ghost predicate Frozen(r: Rules, cps: Checkpoints, f: Holding)
    requires Rooted(r, f.headers)
  {
    match f.reached
    case None => 0 in cps ==> cps[0] != r.Root()
    case Some(c) =>
      && c in cps && cps[c] in f.headers && f.headers[cps[c]].height == c
      && forall k | k in f.headers && f.headers[k].height <= c ::
           k == Chain(r, f.headers, cps[c])[f.headers[k].height]
  }

  predicate Passed(reached: Option<nat>, height: nat) {
    reached.Some? && height <= reached.value
  }

  ghost predicate MostWork(f: Holding) {
    f.tip in f.headers && forall k | k in f.headers :: f.headers[k].work <= f.headers[f.tip].work
  }

  ghost predicate Inv(r: Rules, cps: Checkpoints, f: Holding) {
    Sound(r, f.headers) && MostWork(f) && Agreed(cps, f.headers) && Awaited(cps, f) && Frozen(r, cps, f)
  }

  // ---- Acceptance --------------------------------------------------------------------------

  /** Why a header whose parent is held is refused, checked in this order. */
  ghost function Objection(r: Rules, cps: Checkpoints, f: Holding, h: Header): (o: Option<HeaderError>)
    requires Rooted(r, f.headers) && h.prev in f.headers
    ensures o.Some? ==> o.value.IsOtherChain()
  {
    var height := f.headers[h.prev].height + 1;
    if r.target(h.bits) > r.maxTarget then Some(TargetTooEasy)
    else if height in cps && cps[height] != r.hash(h) then Some(CheckpointMismatch)
    else if Passed(f.reached, height) then Some(ForkBelowCheckpoint)
    else if !r.meets(h, ExpectedBits(r, f.headers, h.prev)) then Some(InvalidPow)
    else None
  }

  /** Whether `h` joins the tree. The memory of refusals has no say in it. */
  ghost predicate Takes(r: Rules, cps: Checkpoints, f: Holding, h: Header)
    requires Rooted(r, f.headers)
  {
    r.hash(h) !in f.headers && h.prev in f.headers && Objection(r, cps, f, h).None?
  }

  /** The tree with `h` taken. A checkpoint reached for the first time keeps its own ancestry and
      nothing else, and is the tip. */
  ghost function Grow(r: Rules, cps: Checkpoints, f: Holding, h: Header): Holding
    requires Rooted(r, f.headers) && f.tip in f.headers && Takes(r, cps, f, h)
  {
    PlaceKeepsRooted(r, f.headers, h);
    var k := r.hash(h);
    var g := Place(r, f.headers, h);
    if g[k].height in cps then Holding(Ancestry(r, g, k), k, Some(g[k].height))
    else Holding(g, if f.headers[f.tip].work < g[k].work then k else f.tip, f.reached)
  }

  lemma GrowKeepsSound(r: Rules, cps: Checkpoints, f: Holding, h: Header)
    requires Inv(r, cps, f) && Takes(r, cps, f, h)
    ensures Sound(r, Grow(r, cps, f, h).headers)
  {
    PlaceKeepsRooted(r, f.headers, h);
    PlaceKeepsSound(r, f.headers, h);
    AncestryKeepsSound(r, Place(r, f.headers, h), r.hash(h));
  }

  lemma GrowKeepsMostWork(r: Rules, cps: Checkpoints, f: Holding, h: Header)
    requires Inv(r, cps, f) && Takes(r, cps, f, h)
    ensures MostWork(Grow(r, cps, f, h))
  {
    var k := r.hash(h);
    var g := Place(r, f.headers, h);
    PlaceKeepsRooted(r, f.headers, h);
    if g[k].height in cps {
      var c := Chain(r, g, k);
      assert c[|c| - 1] in c;
      forall j | j in c ensures g[j].work <= g[k].work {
        var i :| 0 <= i < |c| && c[i] == j;
        if i < g[k].height { ChainWork(r, g, k, i); }
      }
    }
  }

  lemma GrowKeepsAgreed(r: Rules, cps: Checkpoints, f: Holding, h: Header)
    requires Inv(r, cps, f) && Takes(r, cps, f, h)
    ensures Agreed(cps, Grow(r, cps, f, h).headers)
  {}

  /** The first header at a checkpoint's height passes it, so what is left above is nothing. */
  lemma GrowKeepsAwaited(r: Rules, cps: Checkpoints, f: Holding, h: Header)
    requires Inv(r, cps, f) && Takes(r, cps, f, h)
    ensures Awaited(cps, Grow(r, cps, f, h))
  {
    var height := f.headers[h.prev].height + 1;
    forall c | c in cps && 0 < c && !Passed(f.reached, c) ensures height <= c {
      assert f.headers[h.prev].height < c;
    }
  }

  lemma ReachedIsFrozen(r: Rules, cps: Checkpoints, g: Headers, k: Hash)
    requires Sound(r, g) && k in g && g[k].height in cps && cps[g[k].height] == k
    ensures Sound(r, Ancestry(r, g, k)) && Frozen(r, cps, Holding(Ancestry(r, g, k), k, Some(g[k].height)))
  {
    AncestryKeepsSound(r, g, k);
    assert Chain(r, g, k)[g[k].height] in Chain(r, g, k);
  }

  lemma JoinKeepsFrozen(r: Rules, cps: Checkpoints, f: Holding, h: Header, tip: Hash)
    requires Sound(r, f.headers) && Frozen(r, cps, f) && h.prev in f.headers && r.hash(h) !in f.headers
    requires !Passed(f.reached, f.headers[h.prev].height + 1)
    ensures Rooted(r, Place(r, f.headers, h)) && Frozen(r, cps, Holding(Place(r, f.headers, h), tip, f.reached))
  {
    PlaceKeepsRooted(r, f.headers, h);
  }

  lemma GrowKeepsFrozen(r: Rules, cps: Checkpoints, f: Holding, h: Header)
    requires Inv(r, cps, f) && Takes(r, cps, f, h)
    requires Sound(r, Grow(r, cps, f, h).headers)
    ensures Frozen(r, cps, Grow(r, cps, f, h))
  {
    if f.headers[h.prev].height + 1 in cps {
      PlaceKeepsSound(r, f.headers, h);
      ReachedIsFrozen(r, cps, Place(r, f.headers, h), r.hash(h));
    } else {
      JoinKeepsFrozen(r, cps, f, h, Grow(r, cps, f, h).tip);
    }
  }

  lemma GrowKeepsInv(r: Rules, cps: Checkpoints, f: Holding, h: Header)
    requires Inv(r, cps, f) && Takes(r, cps, f, h)
    ensures Inv(r, cps, Grow(r, cps, f, h))
  {
    GrowKeepsSound(r, cps, f, h);
    GrowKeepsMostWork(r, cps, f, h);
    GrowKeepsAgreed(r, cps, f, h);
    GrowKeepsAwaited(r, cps, f, h);
    GrowKeepsFrozen(r, cps, f, h);
  }

  // ---- The refusals remembered --------------------------------------------------------------

  const REMEMBERED := 8192

  datatype Refusal = Refusal(hash: Hash, reason: HeaderError)

  /** The refusals remembered, least recently used first. */
  type Memory = seq<Refusal>

  ghost predicate Unrepeated(m: Memory) {
    forall i, j | 0 <= i < j < |m| :: m[i].hash != m[j].hash
  }

  ghost predicate Remembers(m: Memory, k: Hash) {
    exists i :: 0 <= i < |m| && m[i].hash == k
  }

  ghost function IndexOf(m: Memory, k: Hash): (i: nat)
    requires Remembers(m, k)
    ensures i < |m| && m[i].hash == k
  {
    var i :| 0 <= i < |m| && m[i].hash == k; i
  }

  ghost function ReasonFor(m: Memory, k: Hash): Option<HeaderError> {
    if Remembers(m, k) then Some(m[IndexOf(m, k)].reason) else None
  }

  ghost function Remember(m: Memory, k: Hash, reason: HeaderError): Memory {
    if Remembers(m, k) then m
    else if |m| < REMEMBERED then m + [Refusal(k, reason)]
    else m[|m| + 1 - REMEMBERED..] + [Refusal(k, reason)]
  }

  /** At the limit, remembering is appending and forgetting the first. */
  lemma RememberAtTheLimit(m: Memory, k: Hash, reason: HeaderError)
    requires !Remembers(m, k) && |m| <= REMEMBERED
    ensures |m| == REMEMBERED ==> Remember(m, k, reason) == (m + [Refusal(k, reason)])[1..]
    ensures |m| < REMEMBERED ==> Remember(m, k, reason) == m + [Refusal(k, reason)]
  {}

  /** `s` without entry `i`. */
  ghost function Without<T>(s: seq<T>, i: nat): (t: seq<T>)
    requires i < |s|
    ensures |t| == |s| - 1
    ensures forall j | 0 <= j < |t| :: t[j] == s[if j < i then j else j + 1]
  {
    s[..i] + s[i + 1..]
  }

  /** `s` with entry `i` moved to the back. */
  ghost function ToBack<T>(s: seq<T>, i: nat): (t: seq<T>)
    requires i < |s|
  {
    Without(s, i) + [s[i]]
  }

  ghost function Touch(m: Memory, k: Hash): Memory {
    if Remembers(m, k) then ToBack(m, IndexOf(m, k)) else m
  }

  ghost predicate MemoryInv(m: Memory) {
    Unrepeated(m) && |m| <= REMEMBERED && forall i | 0 <= i < |m| :: m[i].reason.IsOtherChain()
  }

  predicate Weaker(r: Rules, ours: Header, theirs: Header) {
    !r.minDifficultyAllowed && r.difficulty(theirs) * 4.0 < r.difficulty(ours)
  }

  // ---- One header --------------------------------------------------------------------------

  datatype Tree = Tree(holding: Holding, memory: Memory)

  ghost predicate TreeInv(r: Rules, cps: Checkpoints, t: Tree) {
    Inv(r, cps, t.holding) && MemoryInv(t.memory)
  }

  ghost function Judge(r: Rules, cps: Checkpoints, t: Tree, h: Header): Verdict
    requires Rooted(r, t.holding.headers) && t.holding.tip in t.holding.headers
  {
    var f := t.holding;
    if r.hash(h) in f.headers then Known
    else if h.prev in f.headers then
      var o := Objection(r, cps, f, h);
      if o.None? then Accepted else Refused(o.value)
    else if Remembers(t.memory, h.prev) then Refused(ReasonFor(t.memory, h.prev).value)
    else if Weaker(r, f.headers[f.tip].header, h) then Refused(WeakerChain)
    else Refused(OrphanHeader)
  }

  ghost function Recall(r: Rules, cps: Checkpoints, t: Tree, h: Header): Memory
    requires Rooted(r, t.holding.headers) && t.holding.tip in t.holding.headers
  {
    match Judge(r, cps, t, h)
    case Refused(reason) =>
      if h.prev in t.holding.headers then Remember(t.memory, r.hash(h), reason)
      else if Remembers(t.memory, h.prev) then
        // The parent first, so that remembering the child cannot be what forgets the parent.
        Remember(Touch(t.memory, h.prev), r.hash(h), reason)
      else if reason.WeakerChain? then Remember(t.memory, r.hash(h), reason)
      else t.memory
    case _ => t.memory
  }

  ghost function Insert(r: Rules, cps: Checkpoints, t: Tree, h: Header): Tree
    requires Rooted(r, t.holding.headers) && t.holding.tip in t.holding.headers
  {
    Tree(if Judge(r, cps, t, h).Accepted? then Grow(r, cps, t.holding, h) else t.holding,
         Recall(r, cps, t, h))
  }

  lemma TouchKeepsMemory(m: Memory, k: Hash)
    requires MemoryInv(m)
    ensures MemoryInv(Touch(m, k))
  {
    if Remembers(m, k) {
      var i := IndexOf(m, k);
      var t := ToBack(m, i);
      assert forall j | 0 <= j < |m| :: t[j] == if j < i then m[j] else if j == |m| - 1 then m[i] else m[j + 1];
    }
  }

  lemma RememberKeepsMemory(m: Memory, k: Hash, reason: HeaderError)
    requires MemoryInv(m) && reason.IsOtherChain()
    ensures MemoryInv(Remember(m, k, reason)) && Remembers(Remember(m, k, reason), k)
  {
    var t := Remember(m, k, reason);
    if !Remembers(m, k) {
      assert t[|t| - 1].hash == k;
      assert forall j | 0 <= j < |t| - 1 :: t[j] == m[|m| - (|t| - 1) + j];
    }
  }

  /** One header keeps every invariant of the tree, whatever it is. */
  lemma InsertKeepsInv(r: Rules, cps: Checkpoints, t: Tree, h: Header)
    requires TreeInv(r, cps, t)
    ensures TreeInv(r, cps, Insert(r, cps, t, h))
  {
    var v := Judge(r, cps, t, h);
    if v.Accepted? {
      GrowKeepsInv(r, cps, t.holding, h);
    }
    if v.Refused? {
      TouchKeepsMemory(t.memory, h.prev);
      if v.reason.IsOtherChain() {
        RememberKeepsMemory(t.memory, r.hash(h), v.reason);
        RememberKeepsMemory(Touch(t.memory, h.prev), r.hash(h), v.reason);
      }
    }
  }
}
