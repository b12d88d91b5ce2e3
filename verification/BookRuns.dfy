/**
 The address book over many picks: how the dials it starts are shared between the classes of the addresses
 dialled, whatever else happens to the table in between. Only a pick touches the credit.
 */
module BookRuns {
  import opened Basics
  import opened Policy
  import opened Book
  import Alloc = Allocation

  /** A pick: the table it found, what it was allowed, and the addresses it handed out. */
  datatype Pick = Pick(entries: Entries, active: Active, now: nat, dialable: Addr -> bool, budget: nat,
                       take: Alloc.Counts, out: set<Addr>)
  {
    ghost function Dials(which: Class): nat { |OfClass(entries, out, which)| }

    /** Candidates enough of each class that shares the budget. */
    ghost predicate Ample() {
      var due := Eligible(entries, active, now, dialable);
      && budget <= |OfClass(entries, due, Unknown)| && budget <= |OfClass(entries, due, WasGood)|
      && budget <= |OfClass(entries, due, Bad)|
    }
  }

  /** Each pick finds the credit the one before left; the first finds none. */
  ghost predicate Follows(ps: seq<Pick>, credits: seq<Alloc.Credit>) {
    && |credits| == |ps| + 1 && credits[0] == [0, 0, 0]
    && forall i | 0 <= i < |ps| ::
         SharedOut(ps[i].entries, ps[i].active, ps[i].now, ps[i].dialable, ps[i].budget, credits[i], credits[i + 1],
                   ps[i].take, ps[i].out)
  }

  ghost function Dialled(ps: seq<Pick>, which: Class): nat {
    if ps == [] then 0 else Dialled(ps[..|ps| - 1], which) + ps[|ps| - 1].Dials(which)
  }

  function Budgets(ps: seq<Pick>): nat {
    if ps == [] then 0 else Budgets(ps[..|ps| - 1]) + ps[|ps| - 1].budget
  }

  function Ticks(ps: seq<Pick>): (ts: seq<Alloc.Tick>)
    ensures |ts| == |ps|
  {
    if ps == [] then []
    else var b := ps[|ps| - 1].budget; Ticks(ps[..|ps| - 1]) + [Alloc.Tick(b, [b, b, b])]
  }

  lemma {:induction false} TicksAreSteady(ps: seq<Pick>, most: nat)
    requires forall p | p in ps :: p.budget <= most
    ensures Alloc.Steady(Ticks(ps), most)
  {
    if ps != [] {
      assert forall p | p in ps[..|ps| - 1] :: p in ps;
      TicksAreSteady(ps[..|ps| - 1], most);
    }
  }

  /** The ledger of the ticks is that of the picks. */
  ghost predicate Agrees(l: Alloc.Ledger, ps: seq<Pick>, credit: Alloc.Credit) {
    && l.credit == credit && l.budgeted == Budgets(ps) && l.dialled[0] == Dialled(ps, Unknown)
    && l.dialled[1] == Dialled(ps, WasGood) && l.dialled[2] == Dialled(ps, Bad)
  }

  lemma OnePick(p: Pick, credit: Alloc.Credit, credit': Alloc.Credit)
    requires SharedOut(p.entries, p.active, p.now, p.dialable, p.budget, credit, credit', p.take, p.out) && p.Ample()
    ensures (credit', p.take) == Alloc.Allocate(credit, p.budget, [p.budget, p.budget, p.budget])
    ensures p.take[0] == p.Dials(Unknown) && p.take[1] == p.Dials(WasGood) && p.take[2] == p.Dials(Bad)
  {}

  lemma {:induction false} PicksAreTicks(ps: seq<Pick>, credits: seq<Alloc.Credit>, n: nat)
    requires Follows(ps, credits) && (forall p | p in ps :: p.Ample()) && n <= |ps|
    ensures Agrees(Alloc.After(Ticks(ps[..n])), ps[..n], credits[n])
  {
    if n > 0 {
      PicksAreTicks(ps, credits, n - 1);
      PrefixGrows(ps, n - 1);
      OnePick(ps[n - 1], credits[n - 1], credits[n]);
      OneMoreTick(ps[..n - 1], ps[n - 1], ps[..n], credits[n - 1], credits[n]);
    }
  }

  lemma SumsOneMore(ps: seq<Pick>, p: Pick, ps': seq<Pick>, t: Alloc.Tick)
    requires ps' == ps + [p] && t == Alloc.Tick(p.budget, [p.budget, p.budget, p.budget])
    ensures Ticks(ps') == Ticks(ps) + [t] && Budgets(ps') == Budgets(ps) + p.budget
    ensures Dialled(ps', Unknown) == Dialled(ps, Unknown) + p.Dials(Unknown)
    ensures Dialled(ps', WasGood) == Dialled(ps, WasGood) + p.Dials(WasGood)
    ensures Dialled(ps', Bad) == Dialled(ps, Bad) + p.Dials(Bad)
  {
    assert ps'[..|ps'| - 1] == ps;
  }

  lemma LedgerOneMore(l: Alloc.Ledger, t: Alloc.Tick, l': Alloc.Ledger, credit': Alloc.Credit, take: Alloc.Counts)
    requires l' == Alloc.Advance(l, t) && (credit', take) == Alloc.Allocate(l.credit, t.budget, t.available)
    ensures l'.credit == credit' && l'.budgeted == l.budgeted + t.budget
    ensures l'.dialled[0] == l.dialled[0] + take[0] && l'.dialled[1] == l.dialled[1] + take[1]
    ensures l'.dialled[2] == l.dialled[2] + take[2]
  {}

  lemma OneMoreTick(ps: seq<Pick>, p: Pick, ps': seq<Pick>, credit: Alloc.Credit, credit': Alloc.Credit)
    requires ps' == ps + [p] && Agrees(Alloc.After(Ticks(ps)), ps, credit)
    requires (credit', p.take) == Alloc.Allocate(credit, p.budget, [p.budget, p.budget, p.budget])
    requires p.take[0] == p.Dials(Unknown) && p.take[1] == p.Dials(WasGood) && p.take[2] == p.Dials(Bad)
    ensures Agrees(Alloc.After(Ticks(ps')), ps', credit')
  {
    var t := Alloc.Tick(p.budget, [p.budget, p.budget, p.budget]);
    SumsOneMore(ps, p, ps', t);
    AfterOneMore(Ticks(ps), t, Ticks(ps'));
    LedgerOneMore(Alloc.After(Ticks(ps)), t, Alloc.After(Ticks(ps')), credit', p.take);
  }

  lemma AfterOneMore(ts: seq<Alloc.Tick>, t: Alloc.Tick, ts': seq<Alloc.Tick>)
    requires ts' == ts + [t]
    ensures Alloc.After(ts') == Alloc.Advance(Alloc.After(ts), t)
  {
    assert ts'[..|ts'| - 1] == ts;
  }

  /** How far ahead of its share each class is. */
  ghost predicate Ahead(ps: seq<Pick>, least: int, most: int) {
    && least <= 10 * Dialled(ps, Unknown) - 7 * Budgets(ps) <= most
    && least <= 10 * Dialled(ps, WasGood) - 2 * Budgets(ps) <= most
    && least <= 10 * Dialled(ps, Bad) - Budgets(ps) <= most
  }

  lemma AheadInLedger(l: Alloc.Ledger, ps: seq<Pick>, credit: Alloc.Credit, least: int, most: int)
    requires Agrees(l, ps, credit)
    requires least <= l.Ahead(0) <= most && least <= l.Ahead(1) <= most && least <= l.Ahead(2) <= most
    ensures Ahead(ps, least, most)
  {}

  lemma SteadyTicks(ts: seq<Alloc.Tick>)
    requires Alloc.Steady(ts, 10)
    ensures forall i | 0 <= i < 3 :: -73 <= Alloc.After(ts).Ahead(i) <= 40
    ensures Alloc.Steady(ts, 5) ==> forall i | 0 <= i < 3 :: -6 <= Alloc.After(ts).Ahead(i) <= 6
  {
    Alloc.SharesHold(ts, 0);
    Alloc.SharesHold(ts, 1);
    Alloc.SharesHold(ts, 2);
  }

  /** Over any run of picks with candidates enough and budgets up to ten, the dials of addresses never tried, of
      those that were good and of those never reached stay within 7.3 behind and four ahead of seven, two and
      one tenths of the budgets; with budgets up to five, within six tenths of one. */
  lemma SharesOfClasses(ps: seq<Pick>, credits: seq<Alloc.Credit>)
    requires Follows(ps, credits) && forall p | p in ps :: p.Ample() && p.budget <= 10
    ensures Ahead(ps, -73, 40)
    ensures (forall p | p in ps :: p.budget <= 5) ==> Ahead(ps, -6, 6)
  {
    WholePrefix(ps);
    PicksAreTicks(ps, credits, |ps|);
    TicksAreSteady(ps, 10);
    SteadyTicks(Ticks(ps));
    AheadInLedger(Alloc.After(Ticks(ps)), ps, credits[|ps|], -73, 40);
    if forall p | p in ps :: p.budget <= 5 {
      TicksAreSteady(ps, 5);
      AheadInLedger(Alloc.After(Ticks(ps)), ps, credits[|ps|], -6, 6);
    }
  }
}
