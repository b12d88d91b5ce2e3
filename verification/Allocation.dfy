/**
 Sharing a tick's dials between addresses never tried, once reached and never reached, 70/20/10,
 by credit carried from tick to tick. Credit is kept in tenths of a dial, so it is exact.
 */
module Allocation {
  import opened Basics

  const UNKNOWN := 0
  const WAS_GOOD := 1
  const BAD := 2

  /** What one slot of budget earns each class, and what one dial costs, in tenths of a dial. */
  const WEIGHTS: seq<int> := [7, 2, 1]
  const DIAL := 10
  const CREDIT_CAP := 40

  type Credit = s: seq<int> | |s| == 3 witness [0, 0, 0]
  type Counts = s: seq<nat> | |s| == 3 witness [0, 0, 0]

  function Capped(c: int): int { if c < CREDIT_CAP then c else CREDIT_CAP }
  function Floored(c: int): int { if c < -CREDIT_CAP then -CREDIT_CAP else c }
  function Sum(c: Counts): nat { c[0] + c[1] + c[2] }

  function Earn(credit: Credit, budget: nat): Credit {
    [Capped(credit[0] + WEIGHTS[0] * budget),
     Capped(credit[1] + WEIGHTS[1] * budget),
     Capped(credit[2] + WEIGHTS[2] * budget)]
  }

  /** Class `i` has a candidate left, and is owed as much as class `j` if that one has too; more, if `j`
      comes first. */
  predicate Beats(credit: Credit, take: Counts, available: Counts, i: nat, j: nat)
    requires i < 3 && j < 3
  {
    take[j] < available[j] ==> if j < i then credit[i] > credit[j] else credit[i] >= credit[j]
  }

  predicate Leads(credit: Credit, take: Counts, available: Counts, i: nat)
    requires i < 3
  {
    && take[i] < available[i]
    && Beats(credit, take, available, i, 0) && Beats(credit, take, available, i, 1)
    && Beats(credit, take, available, i, 2)
  }

  /** The class with a candidate left that is owed most, the first of equals; -1 if there is none. */
  function Best(credit: Credit, take: Counts, available: Counts): int {
    if Leads(credit, take, available, 0) then 0
    else if Leads(credit, take, available, 1) then 1
    else if Leads(credit, take, available, 2) then 2
    else -1
  }

  function Charge(credit: Credit, i: nat): Credit
    requires i < 3
  {
    credit[i := Floored(credit[i] - DIAL)]
  }

  /** Hands out up to `slots` dials, one at a time, to whichever class is owed most. */
  function HandOut(credit: Credit, take: Counts, available: Counts, slots: nat): (Credit, Counts)
    decreases slots
  {
    var b := Best(credit, take, available);
    if slots == 0 || b == -1 then (credit, take)
    else HandOut(Charge(credit, b), take[b := take[b] + 1], available, slots - 1)
  }

  lemma HandOutUnfolds(credit: Credit, take: Counts, available: Counts, slots: nat)
    requires slots > 0
    ensures var b := Best(credit, take, available);
            HandOut(credit, take, available, slots) ==
            if b == -1 then (credit, take) else HandOut(Charge(credit, b), take[b := take[b] + 1], available, slots - 1)
  {}

  function Allocate(credit: Credit, budget: nat, available: Counts): (Credit, Counts) {
    HandOut(Earn(credit, budget), [0, 0, 0], available, budget)
  }

  ghost predicate Within(take: Counts, available: Counts) {
    forall i | 0 <= i < 3 :: take[i] <= available[i]
  }

  lemma OneMoreSlot(take: Counts, available: Counts, b: nat)
    requires b < 3 && Within(take, available) && take[b] < available[b]
    ensures Within(take[b := take[b] + 1], available) && Sum(take[b := take[b] + 1]) == Sum(take) + 1
    ensures Sum(take) < Sum(available)
  {}

  lemma NothingLeft(take: Counts, available: Counts)
    requires Within(take, available) && forall i | 0 <= i < 3 :: take[i] >= available[i]
    ensures Sum(take) == Sum(available)
  {}

  lemma {:induction false} HandOutCounts(credit: Credit, take: Counts, available: Counts, slots: nat)
    requires Within(take, available)
    ensures Within(HandOut(credit, take, available, slots).1, available)
    ensures Sum(HandOut(credit, take, available, slots).1) == Sum(take) + Min(slots, Monus(Sum(available), Sum(take)))
    decreases slots
  {
    var b := Best(credit, take, available);
    if b == -1 {
      NothingLeft(take, available);
    } else {
      OneMoreSlot(take, available, b);
      if slots > 0 { HandOutCounts(Charge(credit, b), take[b := take[b] + 1], available, slots - 1); }
    }
  }

  /** No dial is wasted: as many are handed out as the budget and the candidates allow, and to no class
      more than it has candidates. */
  lemma NothingIsWasted(credit: Credit, budget: nat, available: Counts)
    ensures var take := Allocate(credit, budget, available).1;
            Within(take, available) && Sum(take) == Min(budget, Sum(available))
  {
    HandOutCounts(Earn(credit, budget), [0, 0, 0], available, budget);
  }

  ghost predicate InBounds(credit: Credit) {
    forall i | 0 <= i < 3 :: -CREDIT_CAP <= credit[i] <= CREDIT_CAP
  }

  lemma {:induction false} CreditStaysInBounds(credit: Credit, take: Counts, available: Counts, slots: nat)
    requires InBounds(credit)
    ensures InBounds(HandOut(credit, take, available, slots).0)
    decreases slots
  {
    var b := Best(credit, take, available);
    if slots > 0 && b != -1 {
      CreditStaysInBounds(Charge(credit, b), take[b := take[b] + 1], available, slots - 1);
    }
  }

  // ---- Whoever has candidates -----------------------------------------------------------------

  /** What a class is owed after so many dials: one less for each, but never more than four behind. */
  function Less(credit: int, dials: nat): int {
    if dials == 0 then credit else if credit - 10 * dials < -40 then -40 else credit - 10 * dials
  }

  /** A class that got a dial was owed as much as any other with a candidate left, or more if the other comes
      first: so it is at most one dial behind it, or less. */
  ghost predicate Fair(take: Counts, available: Counts, c: Credit, t: Counts) {
    forall i, j | 0 <= i < 3 && 0 <= j < 3 && t[i] > take[i] && t[j] < available[j] ::
      if j < i then c[i] + 10 > c[j] else c[i] + 10 >= c[j]
  }

  ghost predicate Charged(credit: Credit, take: Counts, c: Credit, t: Counts) {
    forall i | 0 <= i < 3 :: t[i] >= take[i] && c[i] == Less(credit[i], t[i] - take[i])
  }

  lemma OneCharges(credit: Credit, b: nat)
    requires b < 3 && InBounds(credit)
    ensures InBounds(Charge(credit, b))
  {}

  lemma OneCharged(credit: Credit, take: Counts, b: nat, c: Credit, t: Counts)
    requires b < 3 && InBounds(credit) && Charged(Charge(credit, b), take[b := take[b] + 1], c, t)
    ensures Charged(credit, take, c, t)
  {}

  lemma OneFair(credit: Credit, take: Counts, available: Counts, b: nat, c: Credit, t: Counts)
    requires b < 3 && InBounds(credit) && Leads(credit, take, available, b)
    requires Charged(Charge(credit, b), take[b := take[b] + 1], c, t) && Fair(take[b := take[b] + 1], available, c, t)
    ensures Fair(take, available, c, t)
  {
    OneCharged(credit, take, b, c, t);
  }

  ghost predicate Shared(credit: Credit, take: Counts, available: Counts, r: (Credit, Counts)) {
    Charged(credit, take, r.0, r.1) && Fair(take, available, r.0, r.1)
  }

  lemma OneShared(credit: Credit, take: Counts, available: Counts, b: nat, credit': Credit, take': Counts,
                  r: (Credit, Counts))
    requires b < 3 && InBounds(credit) && Leads(credit, take, available, b)
    requires credit' == Charge(credit, b) && take' == take[b := take[b] + 1] && Shared(credit', take', available, r)
    ensures Shared(credit, take, available, r)
  {
    OneCharged(credit, take, b, r.0, r.1);
    OneFair(credit, take, available, b, r.0, r.1);
  }

  lemma NoneShared(credit: Credit, take: Counts, available: Counts)
    ensures Shared(credit, take, available, (credit, take))
  {}

  lemma {:induction false} HandOutIsFair(credit: Credit, take: Counts, available: Counts, slots: nat,
                                         r: (Credit, Counts))
    requires InBounds(credit) && r == HandOut(credit, take, available, slots)
    ensures Shared(credit, take, available, r)
    decreases slots
  {
    var b := Best(credit, take, available);
    if slots == 0 || b == -1 {
      NoneShared(credit, take, available);
    } else {
      HandOutUnfolds(credit, take, available, slots);
      OneCharges(credit, b);
      HandOutIsFair(Charge(credit, b), take[b := take[b] + 1], available, slots - 1, r);
      OneShared(credit, take, available, b, Charge(credit, b), take[b := take[b] + 1], r);
    }
  }

  function Atmost40(c: int): int { if c < 40 then c else 40 }

  /** How a tick shares its budget, whatever candidates there are: each class earns seven, two and one tenths of it,
      up to four dials; as many dials go out as budget and candidates allow, each costs its class one, and they go to
      the class owed most that still has a candidate, the first of equals. */
  lemma AllocateIsFair(credit: Credit, budget: nat, available: Counts, earned: Credit, r: (Credit, Counts))
    requires InBounds(credit) && r == Allocate(credit, budget, available)
    requires earned == [Atmost40(credit[0] + 7 * budget), Atmost40(credit[1] + 2 * budget),
                        Atmost40(credit[2] + budget)]
    ensures r.1[0] + r.1[1] + r.1[2] == Min(budget, available[0] + available[1] + available[2])
    ensures r.1[0] <= available[0] && r.1[1] <= available[1] && r.1[2] <= available[2]
    ensures Shared(earned, [0, 0, 0], available, r)
  {
    NothingIsWasted(credit, budget, available);
    assert Earn(credit, budget) == earned;
    HandOutIsFair(earned, [0, 0, 0], available, budget, r);
  }

  // ---- Where the slots go ------------------------------------------------------------------

  /** The class owed most, the first of equals. */
  function Most(credit: Credit): nat {
    if credit[0] >= credit[1] && credit[0] >= credit[2] then 0 else if credit[1] >= credit[2] then 1 else 2
  }

  /** Slots handed out with candidates to spare and no lower bound on credit. */
  function Deal(credit: Credit, take: Counts, slots: nat): (Credit, Counts)
    decreases slots
  {
    var m := Most(credit);
    if slots == 0 then (credit, take) else Deal(credit[m := credit[m] - DIAL], take[m := take[m] + 1], slots - 1)
  }

  /** A class that got a slot was owed as much as any other then, so it is at most one dial behind; less, if
      the other one comes first. */
  ghost predicate Abreast(c0: int, c1: int, c2: int, got0: nat, got1: nat, got2: nat) {
    && (got0 > 0 ==> c0 + DIAL >= c1 && c0 + DIAL >= c2)
    && (got1 > 0 ==> c1 + DIAL > c0 && c1 + DIAL >= c2)
    && (got2 > 0 ==> c2 + DIAL > c0 && c2 + DIAL > c1)
  }

  /** What dealing `slots` comes to. There is only one such result. */
  ghost predicate Dealt(credit: Credit, take: Counts, slots: nat, c: Credit, t: Counts) {
    && t[0] >= take[0] && t[1] >= take[1] && t[2] >= take[2] && Sum(t) == Sum(take) + slots
    && c[0] == credit[0] - DIAL * (t[0] - take[0]) && c[1] == credit[1] - DIAL * (t[1] - take[1])
    && c[2] == credit[2] - DIAL * (t[2] - take[2])
    && Abreast(c[0], c[1], c[2], t[0] - take[0], t[1] - take[1], t[2] - take[2])
  }

  lemma OneSlotDealt(credit: Credit, take: Counts, slots: nat, m: nat, c: Credit, t: Counts)
    requires slots > 0 && m == Most(credit)
    requires Dealt(credit[m := credit[m] - DIAL], take[m := take[m] + 1], slots - 1, c, t)
    ensures Dealt(credit, take, slots, c, t)
  {}

  lemma DealUnfolds(credit: Credit, take: Counts, slots: nat, m: nat)
    requires slots > 0 && m == Most(credit)
    ensures Deal(credit, take, slots) == Deal(credit[m := credit[m] - DIAL], take[m := take[m] + 1], slots - 1)
  {}

  lemma {:induction false} DealIsDealt(credit: Credit, take: Counts, slots: nat)
    ensures Dealt(credit, take, slots, Deal(credit, take, slots).0, Deal(credit, take, slots).1)
    decreases slots
  {
    if slots > 0 {
      var m := Most(credit);
      var credit', take' := credit[m := credit[m] - DIAL], take[m := take[m] + 1];
      DealIsDealt(credit', take', slots - 1);
      DealUnfolds(credit, take, slots, m);
      OneSlotDealt(credit, take, slots, m, Deal(credit, take, slots).0, Deal(credit, take, slots).1);
    }
  }

  ghost predicate Ample(take: Counts, available: Counts, slots: nat) {
    take[0] + slots <= available[0] && take[1] + slots <= available[1] && take[2] + slots <= available[2]
  }

  ghost predicate Above(c: Credit) { -CREDIT_CAP <= c[0] && -CREDIT_CAP <= c[1] && -CREDIT_CAP <= c[2] }

  lemma BestIsMost(credit: Credit, take: Counts, available: Counts)
    requires take[0] < available[0] && take[1] < available[1] && take[2] < available[2]
    ensures Best(credit, take, available) == Most(credit)
  {}

  lemma DealLowers(credit: Credit, take: Counts, slots: nat)
    requires Above(Deal(credit, take, slots).0)
    ensures Above(credit)
  {
    DealIsDealt(credit, take, slots);
  }

  lemma FloorOutOfReach(credit: Credit, m: nat)
    requires m < 3 && Above(credit[m := credit[m] - DIAL])
    ensures Charge(credit, m) == credit[m := credit[m] - DIAL]
  {}

  /** With candidates to spare and the lower bound out of reach, that is where the slots go. */
  lemma {:induction false} HandOutDeals(credit: Credit, take: Counts, available: Counts, slots: nat)
    requires Ample(take, available, slots) && Above(Deal(credit, take, slots).0)
    ensures HandOut(credit, take, available, slots) == Deal(credit, take, slots)
    decreases slots
  {
    if slots > 0 {
      var m := Most(credit);
      var credit', take' := credit[m := credit[m] - DIAL], take[m := take[m] + 1];
      BestIsMost(credit, take, available);
      DealLowers(credit', take', slots - 1);
      FloorOutOfReach(credit, m);
      HandOutDeals(credit', take', available, slots - 1);
      HandOutUnfolds(credit, take, available, slots);
    }
  }

  // ---- Runs of ticks -----------------------------------------------------------------------

  /** A tick: the budget, and the candidates each class has. */
  datatype Tick = Tick(budget: nat, available: Counts)

  /** Where a run of ticks stands: the credit carried, the dials started per class, the budget spent. */
  datatype Ledger = Ledger(credit: Credit, dialled: Counts, budgeted: nat)
  {
    /** How far a class is ahead of its 70/20/10 share, in tenths of a dial. */
    function Ahead(i: nat): int
      requires i < 3
    {
      DIAL * dialled[i] - WEIGHTS[i] * budgeted
    }
  }

  function Add(a: Counts, b: Counts): Counts { [a[0] + b[0], a[1] + b[1], a[2] + b[2]] }

  function Advance(l: Ledger, t: Tick): Ledger {
    var (credit, take) := Allocate(l.credit, t.budget, t.available);
    Ledger(credit, Add(l.dialled, take), l.budgeted + t.budget)
  }

  function After(ticks: seq<Tick>): Ledger {
    if ticks == [] then Ledger([0, 0, 0], [0, 0, 0], 0)
    else Advance(After(ticks[..|ticks| - 1]), ticks[|ticks| - 1])
  }

  /** Budgets of at most `most`, and always candidates enough in each class. */
  ghost predicate Steady(ticks: seq<Tick>, most: nat) {
    forall t | t in ticks :: t.budget <= most && Ample([0, 0, 0], t.available, t.budget)
  }

  /** Only the first class's credit is ever cut, so the others' dials are what their credit says. */
  ghost predicate Booked(l: Ledger) {
    && DIAL * l.dialled[1] + l.credit[1] == WEIGHTS[1] * l.budgeted
    && DIAL * l.dialled[2] + l.credit[2] == WEIGHTS[2] * l.budgeted
    && Sum(l.dialled) == l.budgeted
  }

  // ---- Budgets up to five, and up to ten ---------------------------------------------------------

  /** The credits runs with budgets up to ten get to lie in here, all of them above the lower bound. */
  ghost predicate Level(c0: int, c1: int, c2: int) {
    -102 <= c0 + c1 + c2 <= 0 && c1 - c0 <= 10 && c2 - c1 <= 10
  }

  ghost predicate Close(c0: int, c1: int, c2: int) {
    c0 - c1 - c2 <= 45 && c0 + c1 - c2 <= 9 && -40 <= c0 && -40 <= c1 && -37 <= c2
  }

  ghost predicate Wide(c: Credit) { Level(c[0], c[1], c[2]) && Close(c[0], c[1], c[2]) }

  /** And those with budgets up to five in here. */
  ghost predicate NotOver(c0: int, c1: int, c2: int) { c0 + c1 + c2 == 0 && c0 <= 3 && c1 <= 6 && c2 <= 5 }

  ghost predicate NotUnder(c0: int, c1: int, c2: int) { -6 <= c0 && -4 <= c1 && -4 <= c2 }

  ghost predicate Narrow(c: Credit) { NotOver(c[0], c[1], c[2]) && NotUnder(c[0], c[1], c[2]) }

  /** A tick takes credits `c`, the first class's now `e0`, to `d`. `k` says that the second is twice the
      third, modulo a dial. */
  ghost predicate Ticks(c1: int, c2: int, k: int, budget: nat, e0: int,
                        t0: nat, t1: nat, t2: nat, d0: int, d1: int, d2: int) {
    && c1 - 2 * c2 == 10 * k && t0 + t1 + t2 == budget
    && d0 == e0 - 10 * t0 && d1 == c1 + 2 * budget - 10 * t1 && d2 == c2 + budget - 10 * t2
    && Abreast(d0, d1, d2, t0, t1, t2)
  }

  lemma UncutLevel(c0: int, c1: int, c2: int, k: int, budget: nat,
                   t0: nat, t1: nat, t2: nat, d0: int, d1: int, d2: int)
    requires Level(c0, c1, c2) && Close(c0, c1, c2) && budget <= 10 && c0 + 7 * budget <= CREDIT_CAP
    requires Ticks(c1, c2, k, budget, c0 + 7 * budget, t0, t1, t2, d0, d1, d2)
    ensures Level(d0, d1, d2)
  {}

  /** The third class having got a slot. */
  lemma ThirdPaid(d0: int, d1: int, d2: int, k: int)
    requires d1 - 2 * d2 == 10 * k && d0 <= d2 + 9 && d1 <= d2 + 9 && -102 <= d0 + d1 + d2 <= 0
    ensures d0 + d1 - d2 <= 9 && -37 <= d2
  {}

  lemma UncutClose(c0: int, c1: int, c2: int, k: int, budget: nat,
                   t0: nat, t1: nat, t2: nat, d0: int, d1: int, d2: int)
    requires Level(c0, c1, c2) && Close(c0, c1, c2) && budget <= 10 && c0 + 7 * budget <= CREDIT_CAP
    requires Ticks(c1, c2, k, budget, c0 + 7 * budget, t0, t1, t2, d0, d1, d2)
    ensures Close(d0, d1, d2)
  {
    if t2 > 0 { ThirdPaid(d0, d1, d2, k - t1 + 2 * t2); }
  }

  lemma CutStays(c0: int, c1: int, c2: int, k: int, budget: nat,
                 t0: nat, t1: nat, t2: nat, d0: int, d1: int, d2: int)
    requires Level(c0, c1, c2) && Close(c0, c1, c2) && budget <= 10 && c0 + 7 * budget > CREDIT_CAP
    requires Ticks(c1, c2, k, budget, CREDIT_CAP, t0, t1, t2, d0, d1, d2)
    ensures Level(d0, d1, d2) && Close(d0, d1, d2)
  {}

  lemma FirstNotOver(c0: int, c1: int, c2: int, k: int, budget: nat,
                     t0: nat, t1: nat, t2: nat, d0: int, d1: int, d2: int)
    requires NotOver(c0, c1, c2) && NotUnder(c0, c1, c2) && budget <= 5
    requires Ticks(c1, c2, k, budget, c0 + 7 * budget, t0, t1, t2, d0, d1, d2)
    ensures d0 <= 3
  {
    assert d1 - 2 * d2 == 10 * (k - t1 + 2 * t2);
  }

  lemma SecondNotOver(c0: int, c1: int, c2: int, k: int, budget: nat,
                      t0: nat, t1: nat, t2: nat, d0: int, d1: int, d2: int)
    requires NotOver(c0, c1, c2) && NotUnder(c0, c1, c2) && budget <= 5
    requires Ticks(c1, c2, k, budget, c0 + 7 * budget, t0, t1, t2, d0, d1, d2)
    ensures d1 <= 6
  {
    assert d1 - 2 * d2 == 10 * (k - t1 + 2 * t2);
  }

  lemma StaysNotOver(c0: int, c1: int, c2: int, k: int, budget: nat,
                     t0: nat, t1: nat, t2: nat, d0: int, d1: int, d2: int)
    requires NotOver(c0, c1, c2) && NotUnder(c0, c1, c2) && budget <= 5
    requires Ticks(c1, c2, k, budget, c0 + 7 * budget, t0, t1, t2, d0, d1, d2)
    ensures NotOver(d0, d1, d2)
  {
    assert d1 - 2 * d2 == 10 * (k - t1 + 2 * t2);
    FirstNotOver(c0, c1, c2, k, budget, t0, t1, t2, d0, d1, d2);
    SecondNotOver(c0, c1, c2, k, budget, t0, t1, t2, d0, d1, d2);
  }

  lemma StaysNotUnder(c0: int, c1: int, c2: int, k: int, budget: nat,
                      t0: nat, t1: nat, t2: nat, d0: int, d1: int, d2: int)
    requires NotOver(c0, c1, c2) && NotUnder(c0, c1, c2) && budget <= 5
    requires Ticks(c1, c2, k, budget, c0 + 7 * budget, t0, t1, t2, d0, d1, d2)
    ensures NotUnder(d0, d1, d2)
  {
    assert d1 - 2 * d2 == 10 * (k - t1 + 2 * t2);
  }

  /** The credit and the dials a tick deals out from credit that only the first class's cap can cut. */
  lemma TickDeals(c: Credit, k: int, budget: nat, d: Credit, t: Counts)
    requires c[1] - 2 * c[2] == 10 * k && c[1] + 2 * budget <= CREDIT_CAP && c[2] + budget <= CREDIT_CAP
    requires (d, t) == Deal(Earn(c, budget), [0, 0, 0], budget)
    ensures Ticks(c[1], c[2], k, budget, Capped(c[0] + 7 * budget), t[0], t[1], t[2], d[0], d[1], d[2])
  {
    DealIsDealt(Earn(c, budget), [0, 0, 0], budget);
  }

  lemma WideStays(c: Credit, k: int, budget: nat, d: Credit, t: Counts)
    requires Wide(c) && budget <= 10 && c[1] - 2 * c[2] == 10 * k
    requires (d, t) == Deal(Earn(c, budget), [0, 0, 0], budget)
    ensures Wide(d) && Ticks(c[1], c[2], k, budget, Capped(c[0] + 7 * budget), t[0], t[1], t[2], d[0], d[1], d[2])
  {
    TickDeals(c, k, budget, d, t);
    if c[0] + 7 * budget <= CREDIT_CAP {
      UncutLevel(c[0], c[1], c[2], k, budget, t[0], t[1], t[2], d[0], d[1], d[2]);
      UncutClose(c[0], c[1], c[2], k, budget, t[0], t[1], t[2], d[0], d[1], d[2]);
    } else {
      CutStays(c[0], c[1], c[2], k, budget, t[0], t[1], t[2], d[0], d[1], d[2]);
    }
  }

  lemma NarrowStays(c: Credit, k: int, budget: nat, d: Credit, t: Counts)
    requires Narrow(c) && budget <= 5 && c[1] - 2 * c[2] == 10 * k
    requires (d, t) == Deal(Earn(c, budget), [0, 0, 0], budget)
    ensures Narrow(d)
  {
    TickDeals(c, k, budget, d, t);
    StaysNotOver(c[0], c[1], c[2], k, budget, t[0], t[1], t[2], d[0], d[1], d[2]);
    StaysNotUnder(c[0], c[1], c[2], k, budget, t[0], t[1], t[2], d[0], d[1], d[2]);
  }

  /** A tick of a run that stays above the lower bound, and what it leaves. */
  lemma AdvanceDeals(l: Ledger, tick: Tick, d: Credit, t: Counts)
    requires Ample([0, 0, 0], tick.available, tick.budget) && Above(d)
    requires (d, t) == Deal(Earn(l.credit, tick.budget), [0, 0, 0], tick.budget)
    ensures Advance(l, tick) == Ledger(d, Add(l.dialled, t), l.budgeted + tick.budget)
  {
    HandOutDeals(Earn(l.credit, tick.budget), [0, 0, 0], tick.available, tick.budget);
  }

  /** Booked credits keep the second twice the third, modulo a dial. */
  lemma BookedRatio(l: Ledger) returns (k: int)
    requires Booked(l)
    ensures l.credit[1] - 2 * l.credit[2] == 10 * k
  {
    k := 2 * (l.dialled[2] as int) - l.dialled[1];
  }

  lemma StaysBooked(l: Ledger, k: int, budget: nat, e0: int, d: Credit, t: Counts)
    requires Booked(l) && Ticks(l.credit[1], l.credit[2], k, budget, e0, t[0], t[1], t[2], d[0], d[1], d[2])
    ensures Booked(Ledger(d, Add(l.dialled, t), l.budgeted + budget))
  {}

  lemma AdvanceStays(l: Ledger, tick: Tick)
    requires Wide(l.credit) && Booked(l) && tick.budget <= 10 && Ample([0, 0, 0], tick.available, tick.budget)
    ensures Wide(Advance(l, tick).credit) && Booked(Advance(l, tick))
    ensures Narrow(l.credit) && tick.budget <= 5 ==> Narrow(Advance(l, tick).credit)
  {
    var k := BookedRatio(l);
    var (d, t) := Deal(Earn(l.credit, tick.budget), [0, 0, 0], tick.budget);
    WideStays(l.credit, k, tick.budget, d, t);
    StaysBooked(l, k, tick.budget, Capped(l.credit[0] + 7 * tick.budget), d, t);
    AdvanceDeals(l, tick, d, t);
    if Narrow(l.credit) && tick.budget <= 5 { NarrowStays(l.credit, k, tick.budget, d, t); }
  }

  /** Over any steady run with budgets up to ten the lower bound is never met and only the first class's
      credit is cut; with budgets up to five none is. */
  lemma {:induction false} SteadyRun(ticks: seq<Tick>)
    requires Steady(ticks, 10)
    ensures Wide(After(ticks).credit) && Booked(After(ticks))
    ensures Steady(ticks, 5) ==> Narrow(After(ticks).credit)
  {
    if ticks != [] {
      var init := ticks[..|ticks| - 1];
      SteadyRun(init);
      AdvanceStays(After(init), ticks[|ticks| - 1]);
    }
  }

  lemma AheadIs(l: Ledger)
    requires Booked(l)
    ensures l.Ahead(0) == l.credit[1] + l.credit[2] && l.Ahead(1) == -l.credit[1] && l.Ahead(2) == -l.credit[2]
  {}

  lemma WideAhead(c: Credit)
    requires Wide(c)
    ensures -73 <= c[1] + c[2] <= 40 && -73 <= -c[1] <= 40 && -73 <= -c[2] <= 40
  {}

  /** Each class then stays within four dials ahead and 7.3 behind its share; with budgets up
      to five, within six tenths of one. */
  lemma SharesHold(ticks: seq<Tick>, i: nat)
    requires Steady(ticks, 10) && i < 3
    ensures -73 <= After(ticks).Ahead(i) <= 40
    ensures Steady(ticks, 5) ==> -6 <= After(ticks).Ahead(i) <= 6
  {
    SteadyRun(ticks);
    AheadIs(After(ticks));
    WideAhead(After(ticks).credit);
    assert i == 0 || i == 1 || i == 2;
  }

  // ---- Budgets from eleven -----------------------------------------------------------------------

  function Down(c: int): int { if c < -30 then -40 else c - 10 }

  /** Slots handed out with candidates to spare, number by number: the credits left, and what each class
      then has. */
  function Pay(c0: int, c1: int, c2: int, t0: nat, t1: nat, t2: nat, slots: nat): (int, int, int, nat, nat, nat)
    decreases slots
  {
    if slots == 0 then (c0, c1, c2, t0, t1, t2)
    else if c0 >= c1 && c0 >= c2 then Pay(Down(c0), c1, c2, t0 + 1, t1, t2, slots - 1)
    else if c1 >= c2 then Pay(c0, Down(c1), c2, t0, t1 + 1, t2, slots - 1)
    else Pay(c0, c1, Down(c2), t0, t1, t2 + 1, slots - 1)
  }

  lemma {:induction false} HandOutPays(credit: Credit, take: Counts, available: Counts, slots: nat)
    requires Ample(take, available, slots)
    ensures var p := Pay(credit[0], credit[1], credit[2], take[0], take[1], take[2], slots);
            HandOut(credit, take, available, slots) == ([p.0, p.1, p.2], [p.3, p.4, p.5])
    decreases slots
  {
    if slots == 0 {
      assert credit == [credit[0], credit[1], credit[2]] && take == [take[0], take[1], take[2]];
    } else {
      var m := Most(credit);
      BestIsMost(credit, take, available);
      HandOutUnfolds(credit, take, available, slots);
      HandOutPays(Charge(credit, m), take[m := take[m] + 1], available, slots - 1);
    }
  }

  // The budget is a parameter `b` between ten and twelve, which is to say eleven: written as a numeral it would
  // have the verifier unfold every tick.

  /** Ticks of a budget of `b`, with candidates enough. */
  function Same(b: nat, n: nat): seq<Tick> { seq(n, _ => Tick(b, [b, b, b])) }

  /** Where `n` of them lead: the credits, and how far the first class is ahead. */
  ghost predicate At(b: nat, n: nat, c0: int, c1: int, c2: int, ahead: int) {
    After(Same(b, n)).credit == [c0, c1, c2] && After(Same(b, n)).Ahead(0) == ahead
  }

  ghost predicate Pays(b: nat, c: Credit, d: Credit, g: Counts) {
    Pay(Capped(c[0] + 7 * b), Capped(c[1] + 2 * b), Capped(c[2] + b), 0, 0, 0, b) == (d[0], d[1], d[2], g[0], g[1],
                                                                                      g[2])
  }

  lemma AllocatePays(b: nat, c: Credit, d: Credit, g: Counts)
    requires Pays(b, c, d, g)
    ensures Allocate(c, b, [b, b, b]) == (d, g)
  {
    HandOutPays(Earn(c, b), [0, 0, 0], [b, b, b], b);
    assert d == [d[0], d[1], d[2]] && g == [g[0], g[1], g[2]];
  }

  lemma OneMoreTick(b: nat, n: nat)
    ensures After(Same(b, n + 1)) == Advance(After(Same(b, n)), Tick(b, [b, b, b]))
  {
    assert Same(b, n + 1)[..n] == Same(b, n);
  }

  lemma OneEleven(b: nat, n: nat, c0: int, c1: int, c2: int, ahead: int,
                  d0: int, d1: int, d2: int, g0: nat, g1: nat, g2: nat)
    requires 10 < b < 12 && At(b, n, c0, c1, c2, ahead)
    requires Pay(Capped(c0 + 7 * b), Capped(c1 + 2 * b), Capped(c2 + b), 0, 0, 0, b) == (d0, d1, d2, g0, g1, g2)
    ensures At(b, n + 1, d0, d1, d2, ahead + DIAL * g0 - 77)
  {
    AllocatePays(b, [c0, c1, c2], [d0, d1, d2], [g0, g1, g2]);
    OneMoreTick(b, n);
  }

  lemma Ticks0To4(b: nat)
    requires 10 < b < 12
    ensures Pay(40, 22, 11, 0, 0, 0, b) == (-10, -18, -9, 5, 4, 2)
    ensures Pay(40, 4, 2, 0, 0, 0, b) == (-20, -26, -18, 6, 3, 2)
    ensures Pay(40, -4, -7, 0, 0, 0, b) == (-30, -24, -27, 7, 2, 2)
    ensures Pay(40, -2, -16, 0, 0, 0, b) == (-30, -32, -26, 7, 3, 1)
    ensures Pay(40, -10, -15, 0, 0, 0, b) == (-30, -30, -35, 7, 2, 2)
  {
    assert b == 11;
  }

  lemma Ticks5To9(b: nat)
    requires 10 < b < 12
    ensures Pay(40, -8, -24, 0, 0, 0, b) == (-30, -38, -34, 7, 3, 1)
    ensures Pay(40, -16, -23, 0, 0, 0, b) == (-40, -36, -33, 8, 2, 1)
    ensures Pay(37, -14, -22, 0, 0, 0, b) == (-33, -34, -40, 7, 2, 2)
    ensures Pay(40, -12, -29, 0, 0, 0, b) == (-40, -32, -39, 8, 2, 1)
    ensures Pay(37, -10, -28, 0, 0, 0, b) == (-33, -40, -38, 7, 3, 1)
  {
    assert b == 11;
  }

  lemma Ticks10To13(b: nat)
    requires 10 < b < 12
    ensures Pay(40, -18, -27, 0, 0, 0, b) == (-40, -38, -37, 8, 2, 1)
    ensures Pay(37, -16, -26, 0, 0, 0, b) == (-40, -36, -36, 8, 2, 1)
    ensures Pay(37, -14, -25, 0, 0, 0, b) == (-40, -34, -35, 8, 2, 1)
    ensures Pay(37, -12, -24, 0, 0, 0, b) == (-33, -40, -34, 7, 3, 1)
  {
    assert b == 11;
  }

  lemma Ticks14To17(b: nat)
    requires 10 < b < 12
    ensures Pay(40, -18, -23, 0, 0, 0, b) == (-40, -38, -33, 8, 2, 1)
    ensures Pay(37, -16, -22, 0, 0, 0, b) == (-33, -36, -40, 7, 2, 2)
    ensures Pay(40, -14, -29, 0, 0, 0, b) == (-40, -34, -39, 8, 2, 1)
    ensures Pay(37, -12, -28, 0, 0, 0, b) == (-33, -40, -38, 7, 3, 1)
  {
    assert b == 11;
  }

  lemma FirstFive(b: nat)
    requires 10 < b < 12
    ensures At(b, 5, -30, -30, -35, -65)
  {
    Ticks0To4(b);
    OneEleven(b, 0, 0, 0, 0, 0, -10, -18, -9, 5, 4, 2);
    OneEleven(b, 1, -10, -18, -9, -27, -20, -26, -18, 6, 3, 2);
    OneEleven(b, 2, -20, -26, -18, -44, -30, -24, -27, 7, 2, 2);
    OneEleven(b, 3, -30, -24, -27, -51, -30, -32, -26, 7, 3, 1);
    OneEleven(b, 4, -30, -32, -26, -58, -30, -30, -35, 7, 2, 2);
  }

  lemma NextFive(b: nat)
    requires 10 < b < 12
    ensures At(b, 10, -33, -40, -38, -80)
  {
    FirstFive(b);
    Ticks5To9(b);
    OneEleven(b, 5, -30, -30, -35, -65, -30, -38, -34, 7, 3, 1);
    OneEleven(b, 6, -30, -38, -34, -72, -40, -36, -33, 8, 2, 1);
    OneEleven(b, 7, -40, -36, -33, -69, -33, -34, -40, 7, 2, 2);
    OneEleven(b, 8, -33, -34, -40, -76, -40, -32, -39, 8, 2, 1);
    OneEleven(b, 9, -40, -32, -39, -73, -33, -40, -38, 7, 3, 1);
  }

  lemma FirstFour(b: nat, n: nat, ahead: int)
    requires 10 < b < 12 && At(b, n, -33, -40, -38, ahead)
    ensures At(b, n + 4, -33, -40, -34, ahead + 2)
  {
    Ticks10To13(b);
    OneEleven(b, n, -33, -40, -38, ahead, -40, -38, -37, 8, 2, 1);
    OneEleven(b, n + 1, -40, -38, -37, ahead + 3, -40, -36, -36, 8, 2, 1);
    OneEleven(b, n + 2, -40, -36, -36, ahead + 6, -40, -34, -35, 8, 2, 1);
    OneEleven(b, n + 3, -40, -34, -35, ahead + 9, -33, -40, -34, 7, 3, 1);
  }

  lemma NextFour(b: nat, n: nat, ahead: int)
    requires 10 < b < 12 && At(b, n, -33, -40, -34, ahead)
    ensures At(b, n + 4, -33, -40, -38, ahead - 8)
  {
    Ticks14To17(b);
    OneEleven(b, n, -33, -40, -34, ahead, -40, -38, -33, 8, 2, 1);
    OneEleven(b, n + 1, -40, -38, -33, ahead + 3, -33, -36, -40, 7, 2, 2);
    OneEleven(b, n + 2, -33, -36, -40, ahead - 4, -40, -34, -39, 8, 2, 1);
    OneEleven(b, n + 3, -40, -34, -39, ahead - 1, -33, -40, -38, 7, 3, 1);
  }

  lemma OneRound(b: nat, n: nat, ahead: int, n': nat, ahead': int)
    requires 10 < b < 12 && At(b, n, -33, -40, -38, ahead) && n' == n + 8 && ahead' == ahead - 6
    ensures At(b, n', -33, -40, -38, ahead')
  {
    FirstFour(b, n, ahead);
    NextFour(b, n + 4, ahead + 2);
  }

  /** After ten ticks the credits go round every eight, and every round leaves the first class another six
      tenths of a dial behind its share. */
  lemma {:induction false} ElevenDrifts(b: nat, rounds: nat)
    requires 10 < b < 12
    ensures At(b, 10 + 8 * rounds, -33, -40, -38, -80 - 6 * rounds)
  {
    if rounds == 0 {
      NextFive(b);
    } else {
      ElevenDrifts(b, rounds - 1);
      OneRound(b, 10 + 8 * (rounds - 1), -80 - 6 * (rounds - 1), 10 + 8 * rounds, -80 - 6 * rounds);
    }
  }

  // ---- The bound on budgets ----------------------------------------------------------------------

  ghost predicate AllWithin(ticks: seq<Tick>, bound: int) {
    forall i | 0 <= i < 3 :: -bound <= After(ticks).Ahead(i) <= bound
  }

  /** One bound for all runs whose budgets are at most `most`. */
  ghost predicate Bounds(most: nat, bound: nat) {
    forall ticks | Steady(ticks, most) :: AllWithin(ticks, bound)
  }

  lemma NoBoundFromEleven(most: nat, bound: nat)
    requires most >= 11
    ensures !Bounds(most, bound)
  {
    var b: nat :| 10 < b < 12;
    ElevenDrifts(b, bound);
    var ticks := Same(b, 10 + 8 * bound);
    assert Steady(ticks, most) && !AllWithin(ticks, bound);
  }

  lemma BoundUpToTen(most: nat)
    requires most <= 10
    ensures Bounds(most, 73)
  {
    forall ticks | Steady(ticks, most) ensures AllWithin(ticks, 73) {
      forall i | 0 <= i < 3 ensures -73 <= After(ticks).Ahead(i) <= 73 { SharesHold(ticks, i); }
    }
  }

  /** With candidates enough the shares hold, to within a bound for all runs, exactly if no budget is above
      ten. */
  lemma SharesHoldUpToTen(most: nat)
    ensures (exists bound: nat :: Bounds(most, bound)) <==> most <= 10
  {
    if most <= 10 {
      BoundUpToTen(most);
    } else {
      forall bound: nat ensures !Bounds(most, bound) { NoBoundFromEleven(most, bound); }
    }
  }
}
