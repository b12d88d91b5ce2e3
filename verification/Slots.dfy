/**
 Who has a task: the manager marks an address as in use when it starts an attempt, the attempt reports
 over a queue in the order it sends, and whatever becomes of it its guard sends one last message,
 which frees the address.
 */
module Slots {
  import opened Basics
  import opened Policy
  import opened Book

  datatype Message =
    | HasConnected(addr: Addr, services: nat, version: nat)
    | HasV1Only(addr: Addr)
    | HasEnded(addr: Addr, outcome: Outcome)

  /** `running` counts the attempts under way for each address. */
  datatype State = State(active: Active, running: multiset<Addr>, queue: seq<Message>)

  datatype Step =
    | Hand(out: seq<Addr>)
    | Report(message: Message)
    | End(addr: Addr, outcome: Outcome)
    | Deliver
    | Elsewhere

  /** What the manager does with a message. */
  function Delivered(active: Active, m: Message): Active {
    match m
    case HasConnected(a, _, _) => active[a := Connected]
    case HasV1Only(_) => active
    case HasEnded(a, _) => active - {a}
  }

  /** And what it records in the table, `r` being the random spread of a retry. */
  function Recorded(entries: Entries, m: Message, now: nat, r: real): Entries
    requires 0.0 <= r < 1.0
  {
    if m.addr !in entries then entries
    else
      match m
      case HasConnected(a, services, version) => entries[a := AfterOne(entries[a], Shook(now, services, version))]
      case HasV1Only(a) => entries[a := AfterOne(entries[a], FellBack)]
      case HasEnded(a, outcome) =>
        var e := AfterOne(entries[a], Over(now, outcome, r));
        if e.Forgettable(now) then entries - {a} else entries[a := e]
  }

  /** A tick hands out addresses that have no task, none twice. A task reports while it runs; its last
      message is the guard's. Gossip, bans and forgetting touch none of this. */
  ghost predicate Allowed(s: State, step: Step) {
    match step
    case Hand(out) => Distinct(out) && forall a | a in out :: a !in s.active
    case Report(m) => !m.HasEnded? && m.addr in s.running
    case End(a, _) => a in s.running
    case Deliver => s.queue != []
    case Elsewhere => true
  }

  ghost function Next(s: State, step: Step): State
    requires Allowed(s, step)
  {
    match step
    case Hand(out) => s.(active := InUse(s.active, ToSet(out)), running := s.running + multiset(out))
    case Report(m) => s.(queue := s.queue + [m])
    case End(a, outcome) => s.(running := s.running - multiset{a}, queue := s.queue + [HasEnded(a, outcome)])
    case Deliver => State(Delivered(s.active, s.queue[0]), s.running, s.queue[1..])
    case Elsewhere => s
  }

  function Ends(queue: seq<Message>, a: Addr): nat {
    if queue == [] then 0 else Ends(queue[1..], a) + if queue[0].HasEnded? && queue[0].addr == a then 1 else 0
  }

  lemma {:induction false} EndsAppend(queue: seq<Message>, m: Message, a: Addr)
    ensures Ends(queue + [m], a) == Ends(queue, a) + if m.HasEnded? && m.addr == a then 1 else 0
  {
    if queue == [] {
      assert Ends([m][1..], a) == 0;
    } else {
      assert (queue + [m])[1..] == queue[1..] + [m];
      EndsAppend(queue[1..], m, a);
    }
  }

  /** What is still to come for an address: its attempt's end, running or sent. */
  ghost predicate Settles(s: State, a: Addr) {
    s.running[a] + Ends(s.queue, a) == if a in s.active then 1 else 0
  }

  /** A report of a connection has the end of that attempt still to come, after it. */
  ghost predicate Followed(s: State, i: nat)
    requires i < |s.queue|
  {
    s.queue[i].HasConnected? ==> s.running[s.queue[i].addr] + Ends(s.queue[i + 1..], s.queue[i].addr) >= 1
  }

  /** One attempt or one undelivered end for each address in use, none for any other. */
  ghost predicate Inv(s: State) {
    && (forall a :: Settles(s, a))
    && forall i | 0 <= i < |s.queue| :: Followed(s, i)
  }

  lemma {:induction false} CountOfDistinct(out: seq<Addr>, a: Addr)
    requires Distinct(out)
    ensures multiset(out)[a] == if a in out then 1 else 0
  {
    if out != [] {
      var init, last := out[..|out| - 1], out[|out| - 1];
      assert out == init + [last];
      CountOfDistinct(init, a);
      forall i | 0 <= i < |init| ensures init[i] != last { assert out[i] != out[|out| - 1]; }
    }
  }

  lemma HandKeepsInv(s: State, out: seq<Addr>)
    requires Inv(s) && Allowed(s, Hand(out))
    ensures Inv(Next(s, Hand(out)))
  {
    var t := Next(s, Hand(out));
    forall a ensures Settles(t, a) {
      assert Settles(s, a);
      CountOfDistinct(out, a);
    }
    forall i | 0 <= i < |t.queue| ensures Followed(t, i) { assert Followed(s, i); }
  }

  lemma SendKeepsFollowed(s: State, t: State, m: Message, i: nat)
    requires i < |s.queue| && Followed(s, i) && t.queue == s.queue + [m]
    requires t.running == if m.HasEnded? then s.running - multiset{m.addr} else s.running
    ensures Followed(t, i)
  {
    assert t.queue[i + 1..] == s.queue[i + 1..] + [m];
    EndsAppend(s.queue[i + 1..], m, s.queue[i].addr);
  }

  lemma ReportKeepsInv(s: State, m: Message)
    requires Inv(s) && Allowed(s, Report(m))
    ensures Inv(Next(s, Report(m)))
  {
    var t := Next(s, Report(m));
    forall a ensures Settles(t, a) {
      assert Settles(s, a);
      EndsAppend(s.queue, m, a);
    }
    forall i | 0 <= i < |t.queue| ensures Followed(t, i) {
      if i < |s.queue| {
        assert Followed(s, i);
        SendKeepsFollowed(s, t, m, i);
      }
    }
  }

  lemma EndKeepsInv(s: State, a: Addr, outcome: Outcome)
    requires Inv(s) && Allowed(s, End(a, outcome))
    ensures Inv(Next(s, End(a, outcome)))
  {
    var t, m := Next(s, End(a, outcome)), HasEnded(a, outcome);
    forall b ensures Settles(t, b) {
      assert Settles(s, b);
      EndsAppend(s.queue, m, b);
    }
    forall i | 0 <= i < |t.queue| ensures Followed(t, i) {
      if i < |s.queue| {
        assert Followed(s, i);
        SendKeepsFollowed(s, t, m, i);
      }
    }
  }

  lemma DeliverKeepsInv(s: State)
    requires Inv(s) && Allowed(s, Deliver)
    ensures Inv(Next(s, Deliver))
  {
    var t := Next(s, Deliver);
    assert Followed(s, 0) && Settles(s, s.queue[0].addr);
    forall a ensures Settles(t, a) { assert Settles(s, a); }
    forall i | 0 <= i < |t.queue| ensures Followed(t, i) {
      assert Followed(s, i + 1);
      assert t.queue[i + 1..] == s.queue[i + 2..];
    }
  }

  lemma StepKeepsInv(s: State, step: Step)
    requires Inv(s) && Allowed(s, step)
    ensures Inv(Next(s, step))
  {
    match step
    case Hand(out) => HandKeepsInv(s, out);
    case Report(m) => ReportKeepsInv(s, m);
    case End(a, outcome) => EndKeepsInv(s, a, outcome);
    case Deliver => DeliverKeepsInv(s);
    case Elsewhere =>
  }

  // ---- Runs --------------------------------------------------------------------------------

  const IDLE := State(map[], multiset{}, [])

  /** Whether a run can happen, and where it leads. */
  ghost predicate Possible(steps: seq<Step>)
    decreases |steps|, 0
  {
    steps == [] || (Possible(steps[..|steps| - 1]) && Allowed(After(steps[..|steps| - 1]), steps[|steps| - 1]))
  }

  ghost function After(steps: seq<Step>): State
    requires Possible(steps)
    decreases |steps|, 1
  {
    if steps == [] then IDLE else Next(After(steps[..|steps| - 1]), steps[|steps| - 1])
  }

  lemma {:induction false} EveryRun(steps: seq<Step>)
    requires Possible(steps)
    ensures Inv(After(steps))
  {
    if steps != [] {
      EveryRun(steps[..|steps| - 1]);
      StepKeepsInv(After(steps[..|steps| - 1]), steps[|steps| - 1]);
    } else {
      forall a ensures Settles(IDLE, a) {}
    }
  }

  /** At any moment of any run an address has at most one attempt or undelivered end, and one exactly
      while it is in use. */
  lemma OneAttemptEach(steps: seq<Step>, a: Addr)
    requires Possible(steps)
    ensures var s := After(steps);
            s.running[a] + Ends(s.queue, a) == if a in s.active then 1 else 0
  {
    EveryRun(steps);
    assert Settles(After(steps), a);
  }

  /** How often an address was handed out, and how often it was freed. */
  ghost function Handed(steps: seq<Step>, a: Addr): nat
    requires Possible(steps)
    decreases |steps|
  {
    if steps == [] then 0
    else Handed(steps[..|steps| - 1], a) + if steps[|steps| - 1].Hand? then multiset(steps[|steps| - 1].out)[a] else 0
  }

  ghost function Freed(steps: seq<Step>, a: Addr): nat
    requires Possible(steps)
    decreases |steps|
  {
    if steps == [] then 0
    else
      var s := After(steps[..|steps| - 1]);
      Freed(steps[..|steps| - 1], a)
      + if steps[|steps| - 1].Deliver? && s.queue[0].HasEnded? && s.queue[0].addr == a then 1 else 0
  }

  /** An address is never handed out again before the end of its last attempt was delivered. */
  lemma {:induction false} FreedBetween(steps: seq<Step>, a: Addr)
    requires Possible(steps)
    ensures Handed(steps, a) == Freed(steps, a) + if a in After(steps).active then 1 else 0
  {
    if steps != [] {
      var init, step := steps[..|steps| - 1], steps[|steps| - 1];
      var s := After(init);
      FreedBetween(init, a);
      EveryRun(init);
      match step {
        case Hand(out) => CountOfDistinct(out, a);
        case Deliver => HeadIsInUse(s);
        case _ =>
      }
    }
  }

  /** A connection or an end comes from an address in use. */
  lemma HeadIsInUse(s: State)
    requires Inv(s) && s.queue != []
    ensures !s.queue[0].HasV1Only? ==> s.queue[0].addr in s.active
  {
    assert Followed(s, 0) && Settles(s, s.queue[0].addr);
  }

  /** Whether a step leaves an address in flight that was so `before`: it is when handed out, and no more once its
      connection or its end is delivered. */
  predicate StaysUnheard(queue: seq<Message>, step: Step, a: Addr, before: bool) {
    match step
    case Hand(out) => a in out || before
    case Deliver => before && !(queue != [] && queue[0].addr == a && (queue[0].HasConnected? || queue[0].HasEnded?))
    case _ => before
  }

  /** Whether, since an address was last handed out, neither its connection nor its end has been delivered. */
  ghost predicate Unheard(steps: seq<Step>, a: Addr)
    requires Possible(steps)
    decreases |steps|
  {
    steps != [] && StaysUnheard(After(steps[..|steps| - 1]).queue, steps[|steps| - 1], a,
                                Unheard(steps[..|steps| - 1], a))
  }

  lemma InFlightAfter(s: State, step: Step, a: Addr)
    requires Inv(s) && Allowed(s, step)
    ensures a in DialingSet(Next(s, step).active) <==> StaysUnheard(s.queue, step, a, a in DialingSet(s.active))
  {
    if step.Deliver? { HeadIsInUse(s); }
  }

  /** Those are the attempts in flight, which the ceiling is on; any other address in use is connected. */
  lemma {:induction false} InFlightIfUnheard(steps: seq<Step>, a: Addr)
    requires Possible(steps)
    ensures a in DialingSet(After(steps).active) <==> Unheard(steps, a)
  {
    if steps != [] {
      var init := steps[..|steps| - 1];
      InFlightIfUnheard(init, a);
      EveryRun(init);
      InFlightAfter(After(init), steps[|steps| - 1], a);
    }
  }

  /** Once every task is gone, delivering what they sent leaves no address in use. */
  lemma {:induction false} NothingLeaks(s: State)
    requires Inv(s) && s.running == multiset{}
    ensures Drained(s).active == map[]
    decreases |s.queue|
  {
    if s.queue == [] {
      forall a ensures a !in s.active { assert Settles(s, a); }
    } else {
      DeliverKeepsInv(s);
      NothingLeaks(Next(s, Deliver));
    }
  }

  /** The state once the queue has been worked off. */
  ghost function Drained(s: State): State
    decreases |s.queue|
  {
    if s.queue == [] then s else Drained(Next(s, Deliver))
  }
}
