/**
 Reservoir sampling: up to `k` items of a stream of unknown length, each as likely as any other.
 */
module Reservoir {
  import opened Basics

  /** What one offer does. `draw` is the random number, below the count of items seen so far. */
  function Next<T>(k: nat, items: seq<T>, item: T, draw: nat): (out: seq<T>)
    requires |items| <= k
    ensures |out| <= k
  {
    if |items| < k then items + [item]
    else if draw < k then items[draw := item]
    else items
  }

  /** A sample of `seen` offered items: as many as fit, none twice. */
  ghost predicate Sample<T>(k: nat, items: seq<T>, offered: set<T>) {
    && Distinct(items) && (forall x | x in items :: x in offered)
    && |items| == if |offered| < k then |offered| else k
  }

  lemma OfferKeepsSample<T>(k: nat, items: seq<T>, offered: set<T>, item: T, draw: nat)
    requires Sample(k, items, offered) && item !in offered
    ensures Sample(k, Next(k, items, item, draw), offered + {item})
  {
    assert forall i | 0 <= i < |items| :: items[i] in offered && items[i] != item;
  }

  /** The sampler: fields updated as items are offered. */
  class Sampler<T(==)> {
    const k: nat
    var items: seq<T>
    var seen: nat
    ghost var offered: set<T>

    ghost predicate Valid()
      reads this
    {
      Sample(k, items, offered) && (k > 0 ==> seen == |offered|)
    }

    constructor (k: nat)
      ensures Valid() && this.k == k && items == [] && offered == {}
    {
      this.k := k;
      items, seen, offered := [], 0, {};
    }

    method Offer(item: T, draw: nat)
      requires Valid() && item !in offered
      modifies this
      ensures Valid() && offered == old(offered) + {item}
      ensures items == Next(k, old(items), item, draw)
    {
      OfferKeepsSample(k, items, offered, item, draw);
      offered := offered + {item};
      if k == 0 {
        return;
      }
      seen := seen + 1;
      if |items| < k {
        items := items + [item];
      } else if draw < k {
        items := items[draw := item];
      }
    }
  }

  // ---- Uniformity --------------------------------------------------------------------------

  /** Over all draws for the items of `rest`, after `seen` before them, how many end with `x` kept. */
  function Kept<T(==)>(k: nat, items: seq<T>, seen: nat, rest: seq<T>, x: T): nat
    requires |items| <= k
    decreases |rest|, seen + 2
  {
    if rest == [] then if x in items then 1 else 0
    else if |items| < k then Kept(k, items + [rest[0]], seen + 1, rest[1..], x)
    else KeptBelow(k, items, seen, rest, x, seen + 1)
  }

  /** The same, over those draws only that start with one below `draws`. */
  function KeptBelow<T(==)>(k: nat, items: seq<T>, seen: nat, rest: seq<T>, x: T, draws: nat): nat
    requires |items| == k && rest != []
    decreases |rest|, draws
  {
    if draws == 0 then 0
    else KeptBelow(k, items, seen, rest, x, draws - 1)
         + Kept(k, Next(k, items, rest[0], draws - 1), seen + 1, rest[1..], x)
  }

  /** How many draws there are for `more` items after `seen`, once the sample is full. */
  function Draws(seen: nat, more: nat): nat
    decreases more
  {
    if more == 0 then 1 else (seen + 1) * Draws(seen + 1, more - 1)
  }

  lemma {:induction false} GoneIsGone<T>(k: nat, items: seq<T>, seen: nat, rest: seq<T>, x: T)
    requires |items| == k && x !in items && x !in rest
    ensures Kept(k, items, seen, rest, x) == 0
    decreases |rest|, seen + 2
  {
    if rest != [] { GoneBelow(k, items, seen, rest, x, seen + 1); }
  }

  lemma {:induction false} GoneBelow<T>(k: nat, items: seq<T>, seen: nat, rest: seq<T>, x: T, draws: nat)
    requires |items| == k && x !in items && x !in rest && rest != []
    ensures KeptBelow(k, items, seen, rest, x, draws) == 0
    decreases |rest|, draws
  {
    if draws > 0 {
      GoneBelow(k, items, seen, rest, x, draws - 1);
      var out := Next(k, items, rest[0], draws - 1);
      assert x !in out by { assert rest[0] in rest; }
      assert forall y | y in rest[1..] :: y in rest;
      GoneIsGone(k, out, seen + 1, rest[1..], x);
    }
  }

  /** An item in the sample after `seen` stays in it in `seen` of every `seen + |rest|` cases. */
  lemma {:induction false} Stays<T>(k: nat, items: seq<T>, seen: nat, rest: seq<T>, p: nat)
    requires |items| == k && k <= seen && p < k && Distinct(items + rest)
    ensures (seen + |rest|) * Kept(k, items, seen, rest, items[p]) == seen * Draws(seen, |rest|)
    decreases |rest|, seen + 2
  {
    if rest != [] {
      StaysBelow(k, items, seen, rest, p, seen + 1);
      var n, d := seen + |rest|, Draws(seen + 1, |rest| - 1);
      assert n * Kept(k, items, seen, rest, items[p]) == seen * ((seen + 1) * d);
    }
  }

  lemma {:induction false} StaysBelow<T>(k: nat, items: seq<T>, seen: nat, rest: seq<T>, p: nat, draws: nat)
    requires |items| == k && k <= seen && p < k && Distinct(items + rest) && rest != [] && draws <= seen + 1
    ensures (seen + |rest|) * KeptBelow(k, items, seen, rest, items[p], draws)
            == (if p < draws then draws - 1 else draws) * ((seen + 1) * Draws(seen + 1, |rest| - 1))
    decreases |rest|, draws
  {
    if draws > 0 {
      StaysBelow(k, items, seen, rest, p, draws - 1);
      var x, out := items[p], Next(k, items, rest[0], draws - 1);
      var n, d := seen + |rest|, (seen + 1) * Draws(seen + 1, |rest| - 1);
      var one := Kept(k, out, seen + 1, rest[1..], x);
      OfferIsDistinct(k, items, rest, draws - 1);
      if draws - 1 == p {
        Replaced(k, items, rest, p);
        GoneIsGone(k, out, seen + 1, rest[1..], x);
        assert n * one == 0;
      } else {
        Stays(k, out, seen + 1, rest[1..], p);
        assert n * one == d;
      }
      Distribute(n, KeptBelow(k, items, seen, rest, x, draws - 1), one, if p < draws - 1 then draws - 2 else draws - 1,
                 d);
    }
  }

  lemma Distribute(n: nat, before: nat, one: nat, c: int, d: nat)
    requires n * before == c * d
    ensures n * one == 0 ==> n * (before + one) == c * d
    ensures n * one == d ==> n * (before + one) == (c + 1) * d
  {
    assert n * (before + one) == n * before + n * one;
    assert (c + 1) * d == c * d + d;
  }

  lemma OfferIsDistinct<T>(k: nat, items: seq<T>, rest: seq<T>, draw: nat)
    requires |items| == k && rest != [] && Distinct(items + rest)
    ensures Distinct(Next(k, items, rest[0], draw) + rest[1..])
  {
    var all, out := items + rest, Next(k, items, rest[0], draw) + rest[1..];
    forall i | 0 <= i < |out| ensures out[i] == all[if i < k then (if i == draw then k else i) else i + 1] {}
    forall i, j | 0 <= i < j < |out| ensures out[i] != out[j] {
      assert out[i] == all[if i < k then (if i == draw then k else i) else i + 1];
      assert out[j] == all[if j < k then (if j == draw then k else j) else j + 1];
    }
  }

  lemma Replaced<T>(k: nat, items: seq<T>, rest: seq<T>, p: nat)
    requires |items| == k && p < k && rest != [] && Distinct(items + rest)
    ensures items[p] !in Next(k, items, rest[0], p) && items[p] !in rest[1..]
  {
    var all := items + rest;
    assert all[p] == items[p] && all[k] == rest[0];
    forall i | 0 <= i < k && i != p ensures items[i] != items[p] { assert all[i] == items[i]; }
    forall i | 0 <= i < |rest| ensures rest[i] != items[p] { assert all[k + i] == rest[i]; }
  }

  /** An item still to come ends up in the sample in `k` of every `seen + |rest|` cases. */
  lemma {:induction false} Enters<T>(k: nat, items: seq<T>, seen: nat, rest: seq<T>, m: nat)
    requires |items| == k && k <= seen && m < |rest| && Distinct(items + rest)
    ensures (seen + |rest|) * Kept(k, items, seen, rest, rest[m]) == k * Draws(seen, |rest|)
    decreases |rest|, seen + 2
  {
    var n, d := seen + |rest|, Draws(seen + 1, |rest| - 1);
    if m == 0 {
      ComesNext(k, items, seen, rest, seen + 1);
      assert n * Kept(k, items, seen, rest, rest[m]) == k * ((seen + 1) * d);
    } else {
      ComesLater(k, items, seen, rest, m, seen + 1);
      assert n * Kept(k, items, seen, rest, rest[m]) == (seen + 1) * (k * d) == k * ((seen + 1) * d);
    }
  }

  lemma {:induction false} ComesNext<T>(k: nat, items: seq<T>, seen: nat, rest: seq<T>, draws: nat)
    requires |items| == k && k <= seen && Distinct(items + rest) && rest != [] && draws <= seen + 1
    ensures (seen + |rest|) * KeptBelow(k, items, seen, rest, rest[0], draws)
            == (if draws < k then draws else k) * ((seen + 1) * Draws(seen + 1, |rest| - 1))
    decreases |rest|, draws
  {
    if draws > 0 {
      ComesNext(k, items, seen, rest, draws - 1);
      var x, out := rest[0], Next(k, items, rest[0], draws - 1);
      var n, d := seen + |rest|, (seen + 1) * Draws(seen + 1, |rest| - 1);
      var one := Kept(k, out, seen + 1, rest[1..], x);
      OfferIsDistinct(k, items, rest, draws - 1);
      if draws - 1 < k {
        Stays(k, out, seen + 1, rest[1..], draws - 1);
        assert n * one == d;
      } else {
        PassedOver(items, rest);
        GoneIsGone(k, out, seen + 1, rest[1..], x);
        assert n * one == 0;
      }
      Distribute(n, KeptBelow(k, items, seen, rest, x, draws - 1), one, if draws - 1 < k then draws - 1 else k, d);
    }
  }

  lemma PassedOver<T>(items: seq<T>, rest: seq<T>)
    requires rest != [] && Distinct(items + rest)
    ensures rest[0] !in items && rest[0] !in rest[1..]
  {
    var all, k := items + rest, |items|;
    assert all[k] == rest[0];
    forall i | 0 <= i < k ensures items[i] != rest[0] { assert all[i] == items[i]; }
    forall i | 0 < i < |rest| ensures rest[i] != rest[0] { assert all[k + i] == rest[i]; }
  }

  lemma {:induction false} ComesLater<T>(k: nat, items: seq<T>, seen: nat, rest: seq<T>, m: nat, draws: nat)
    requires |items| == k && k <= seen && Distinct(items + rest) && 0 < m < |rest| && draws <= seen + 1
    ensures (seen + |rest|) * KeptBelow(k, items, seen, rest, rest[m], draws)
            == draws * (k * Draws(seen + 1, |rest| - 1))
    decreases |rest|, draws
  {
    if draws > 0 {
      ComesLater(k, items, seen, rest, m, draws - 1);
      var out := Next(k, items, rest[0], draws - 1);
      OfferIsDistinct(k, items, rest, draws - 1);
      assert rest[1..][m - 1] == rest[m];
      Enters(k, out, seen + 1, rest[1..], m - 1);
      Distribute(seen + |rest|, KeptBelow(k, items, seen, rest, rest[m], draws - 1),
                 Kept(k, out, seen + 1, rest[1..], rest[m]), draws - 1, k * Draws(seen + 1, |rest| - 1));
    }
  }

  /** While the sample is not full every item goes in, without a draw. */
  lemma {:induction false} Fills<T>(k: nat, items: seq<T>, rest: seq<T>, x: T)
    requires |items| <= k <= |items| + |rest|
    ensures Kept(k, items, |items|, rest, x) == Kept(k, items + rest[..k - |items|], k, rest[k - |items|..], x)
    decreases |rest|
  {
    if |items| == k {
      assert items + rest[..0] == items && rest[0..] == rest;
    } else {
      Fills(k, items + [rest[0]], rest[1..], x);
      assert items + [rest[0]] + rest[1..][..k - |items| - 1] == items + rest[..k - |items|];
      assert rest[1..][k - |items| - 1..] == rest[k - |items|..];
    }
  }

  // ---- All the ways the draws can go ---------------------------------------------------------------

  /** The samples that all draws for the items of `rest`, after `seen` before them, end with: one for each way
      the draws can go. */
  function Outcomes<T>(k: nat, items: seq<T>, seen: nat, rest: seq<T>): seq<seq<T>>
    requires |items| <= k
    decreases |rest|, seen + 2
  {
    if rest == [] then [items]
    else if |items| < k then Outcomes(k, items + [rest[0]], seen + 1, rest[1..])
    else OutcomesBelow(k, items, seen, rest, seen + 1)
  }

  function OutcomesBelow<T>(k: nat, items: seq<T>, seen: nat, rest: seq<T>, draws: nat): seq<seq<T>>
    requires |items| == k && rest != []
    decreases |rest|, draws
  {
    if draws == 0 then []
    else OutcomesBelow(k, items, seen, rest, draws - 1)
         + Outcomes(k, Next(k, items, rest[0], draws - 1), seen + 1, rest[1..])
  }

  /** How many of the samples have `x` in them. */
  function With<T(==)>(samples: seq<seq<T>>, x: T): nat {
    if samples == [] then 0 else With(samples[..|samples| - 1], x) + if x in samples[|samples| - 1] then 1 else 0
  }

  lemma {:induction false} WithJoins<T>(a: seq<seq<T>>, b: seq<seq<T>>, x: T)
    ensures With(a + b, x) == With(a, x) + With(b, x)
  {
    if b == [] {
      assert a + b == a;
    } else {
      WithJoins(a, b[..|b| - 1], x);
      assert (a + b)[..|a + b| - 1] == a + b[..|b| - 1];
    }
  }

  lemma {:induction false} KeptCounts<T>(k: nat, items: seq<T>, seen: nat, rest: seq<T>, x: T)
    requires |items| <= k
    ensures Kept(k, items, seen, rest, x) == With(Outcomes(k, items, seen, rest), x)
    decreases |rest|, seen + 2
  {
    if rest == [] {
      assert With([items], x) == With([], x) + if x in items then 1 else 0;
    } else if |items| < k {
      KeptCounts(k, items + [rest[0]], seen + 1, rest[1..], x);
    } else {
      KeptBelowCounts(k, items, seen, rest, x, seen + 1);
    }
  }

  lemma {:induction false} KeptBelowCounts<T>(k: nat, items: seq<T>, seen: nat, rest: seq<T>, x: T, draws: nat)
    requires |items| == k && rest != []
    ensures KeptBelow(k, items, seen, rest, x, draws) == With(OutcomesBelow(k, items, seen, rest, draws), x)
    decreases |rest|, draws
  {
    if draws > 0 {
      var out := Next(k, items, rest[0], draws - 1);
      KeptBelowCounts(k, items, seen, rest, x, draws - 1);
      KeptCounts(k, out, seen + 1, rest[1..], x);
      WithJoins(OutcomesBelow(k, items, seen, rest, draws - 1), Outcomes(k, out, seen + 1, rest[1..]), x);
    }
  }

  lemma {:induction false} OutcomesNumber<T>(k: nat, items: seq<T>, seen: nat, rest: seq<T>)
    requires |items| == k
    ensures |Outcomes(k, items, seen, rest)| == Draws(seen, |rest|)
    decreases |rest|, seen + 2
  {
    if rest != [] { OutcomesBelowNumber(k, items, seen, rest, seen + 1); }
  }

  lemma {:induction false} OutcomesBelowNumber<T>(k: nat, items: seq<T>, seen: nat, rest: seq<T>, draws: nat)
    requires |items| == k && rest != []
    ensures |OutcomesBelow(k, items, seen, rest, draws)| == draws * Draws(seen + 1, |rest| - 1)
    decreases |rest|, draws
  {
    if draws > 0 {
      OutcomesBelowNumber(k, items, seen, rest, draws - 1);
      OutcomesNumber(k, Next(k, items, rest[0], draws - 1), seen + 1, rest[1..]);
      Distribute(1, |OutcomesBelow(k, items, seen, rest, draws - 1)|, Draws(seen + 1, |rest| - 1), draws - 1,
                 Draws(seen + 1, |rest| - 1));
    }
  }

  lemma {:induction false} OutcomesFill<T>(k: nat, items: seq<T>, rest: seq<T>)
    requires |items| <= k <= |items| + |rest|
    ensures Outcomes(k, items, |items|, rest) == Outcomes(k, items + rest[..k - |items|], k, rest[k - |items|..])
    decreases |rest|
  {
    if |items| == k {
      assert items + rest[..0] == items && rest[0..] == rest;
    } else {
      OutcomesFill(k, items + [rest[0]], rest[1..]);
      assert items + [rest[0]] + rest[1..][..k - |items| - 1] == items + rest[..k - |items|];
      assert rest[1..][k - |items| - 1..] == rest[k - |items|..];
    }
  }

  /** While the sample is not full every item goes in, without a draw; so every item of a stream at least as
      long as the sample is kept in this many of the ways. */
  lemma KeptOf<T>(k: nat, stream: seq<T>, i: nat)
    requires Distinct(stream) && k <= |stream| && i < |stream|
    ensures |stream| * Kept(k, [], 0, stream, stream[i]) == k * Draws(k, |stream| - k)
  {
    Fills(k, [], stream, stream[i]);
    var items, rest := stream[..k], stream[k..];
    assert [] + stream[..k] == items && items + rest == stream;
    if i < k {
      Stays(k, items, k, rest, i);
    } else {
      Enters(k, items, k, rest, i - k);
    }
  }

  /** Of all the ways the draws can go over a stream at least as long as the sample, exactly `k` in every
      `|stream|` end with any given item in the sample. */
  lemma EveryItemIsAsLikely<T>(k: nat, stream: seq<T>, i: nat)
    requires Distinct(stream) && k <= |stream| && i < |stream|
    ensures |stream| * With(Outcomes(k, [], 0, stream), stream[i]) == k * |Outcomes(k, [], 0, stream)|
  {
    KeptOf(k, stream, i);
    KeptCounts(k, [], 0, stream, stream[i]);
    OutcomesFill(k, [], stream);
    assert [] + stream[..k] == stream[..k];
    OutcomesNumber(k, stream[..k], k, stream[k..]);
  }

  /** And every one of them is a sample of `k` distinct items of the stream. */
  lemma {:induction false} OutcomesAreSamples<T>(k: nat, items: seq<T>, seen: nat, rest: seq<T>, o: seq<T>)
    requires |items| == k && Distinct(items + rest) && o in Outcomes(k, items, seen, rest)
    ensures |o| == k && Distinct(o) && forall x | x in o :: x in items + rest
    decreases |rest|, seen + 2
  {
    if rest == [] {
      assert items + rest == items;
    } else {
      OutcomesBelowAreSamples(k, items, seen, rest, seen + 1, o);
    }
  }

  lemma {:induction false} OutcomesBelowAreSamples<T>(k: nat, items: seq<T>, seen: nat, rest: seq<T>, draws: nat,
                                                      o: seq<T>)
    requires |items| == k && rest != [] && Distinct(items + rest) && o in OutcomesBelow(k, items, seen, rest, draws)
    ensures |o| == k && Distinct(o) && forall x | x in o :: x in items + rest
    decreases |rest|, draws
  {
    var out := Next(k, items, rest[0], draws - 1);
    if o in OutcomesBelow(k, items, seen, rest, draws - 1) {
      OutcomesBelowAreSamples(k, items, seen, rest, draws - 1, o);
    } else {
      OfferIsDistinct(k, items, rest, draws - 1);
      OutcomesAreSamples(k, out, seen + 1, rest[1..], o);
      assert forall x | x in out + rest[1..] :: x in items + rest;
    }
  }
}
