/**
 The two maps the tree keeps its refusals in, hash to number and number to hash, as a queue:
 together they stand for the refusals in the order they will be forgotten.
 */
module Refusals {
  import opened Basics
  import opened Forest
  import opened TreeSpec

  type Rejected = map<Hash, (HeaderError, nat)>
  type Ages = map<nat, Hash>

  /** Hash to number and number to hash undo each other, and no number is above the last handed out. */
  ghost predicate Inverse(rejected: Rejected, ages: Ages, last: nat) {
    && (forall k | k in rejected :: rejected[k].1 in ages && ages[rejected[k].1] == k)
    && (forall n | n in ages :: n <= last && ages[n] in rejected && rejected[ages[n]].1 == n)
  }

  /** `order` lists the keys of `rejected`, by number. */
  ghost predicate Lists(order: seq<Hash>, rejected: Rejected) {
    && (forall i | 0 <= i < |order| :: order[i] in rejected)
    && (forall k | k in rejected :: k in order)
    && (forall i, j | 0 <= i < j < |order| :: rejected[order[i]].1 < rejected[order[j]].1)
  }

  ghost predicate Queued(order: seq<Hash>, rejected: Rejected, ages: Ages, last: nat) {
    Inverse(rejected, ages, last) && Lists(order, rejected)
  }

  ghost function Entries(order: seq<Hash>, rejected: Rejected): (m: Memory)
    requires Lists(order, rejected)
    ensures |m| == |order|
  {
    seq(|order|, i requires 0 <= i < |order| => Refusal(order[i], rejected[order[i]].0))
  }

  lemma KeysRemembered(order: seq<Hash>, rejected: Rejected, k: Hash)
    requires Lists(order, rejected)
    ensures Remembers(Entries(order, rejected), k) <==> k in rejected
    ensures k in rejected ==> ReasonFor(Entries(order, rejected), k) == Some(rejected[k].0)
  {
    var m := Entries(order, rejected);
    if k in rejected {
      var i :| 0 <= i < |order| && order[i] == k;
      assert m[i].hash == k;
      assert m[IndexOf(m, k)] == Refusal(k, rejected[k].0);
    }
  }

  lemma PushLists(order: seq<Hash>, rejected: Rejected, k: Hash, reason: HeaderError, n: nat)
    requires Lists(order, rejected) && k !in rejected && forall x | x in rejected :: rejected[x].1 < n
    ensures Lists(order + [k], rejected[k := (reason, n)])
    ensures Entries(order + [k], rejected[k := (reason, n)]) == Entries(order, rejected) + [Refusal(k, reason)]
  {
    var order', rejected' := order + [k], rejected[k := (reason, n)];
    forall x | x in rejected' ensures x in order' {
      if x in rejected {
        var i :| 0 <= i < |order| && order[i] == x;
        assert order'[i] == x;
      } else {
        assert order'[|order|] == x;
      }
    }
    assert forall i | 0 <= i < |order| :: order'[i] == order[i] && order[i] != k;
  }

  /** A new refusal takes the next number and goes to the back. */
  lemma Push(order: seq<Hash>, rejected: Rejected, ages: Ages, last: nat, k: Hash, reason: HeaderError)
    requires Queued(order, rejected, ages, last) && k !in rejected
    ensures Queued(order + [k], rejected[k := (reason, last + 1)], ages[last + 1 := k], last + 1)
    ensures Entries(order + [k], rejected[k := (reason, last + 1)]) == Entries(order, rejected) + [Refusal(k, reason)]
  {
    PushLists(order, rejected, k, reason, last + 1);
  }

  lemma PushTo(order: seq<Hash>, rejected: Rejected, ages: Ages, last: nat, k: Hash, reason: HeaderError,
               order': seq<Hash>, rejected': Rejected, ages': Ages)
    requires Queued(order, rejected, ages, last) && k !in rejected && order' == order + [k]
    requires rejected' == rejected[k := (reason, last + 1)] && ages' == ages[last + 1 := k]
    ensures Queued(order', rejected', ages', last + 1)
    ensures Entries(order', rejected') == Entries(order, rejected) + [Refusal(k, reason)]
  {
    Push(order, rejected, ages, last, k, reason);
  }

  lemma FirstIsOldest(order: seq<Hash>, rejected: Rejected, ages: Ages, last: nat, n: nat)
    requires Queued(order, rejected, ages, last) && n in ages
    ensures order != [] && rejected[order[0]].1 in ages && rejected[order[0]].1 <= n
  {
    assert ages[n] in order;
    var i :| 0 <= i < |order| && order[i] == ages[n];
  }

  lemma RemoveKeeps(order: seq<Hash>, rejected: Rejected, i: nat, x: Hash)
    requires Lists(order, rejected) && i < |order|
    ensures x in Without(order, i) <==> x in rejected && x != order[i]
  {
    var order' := Without(order, i);
    if x in rejected && x != order[i] {
      var j :| 0 <= j < |order| && order[j] == x;
      assert order'[if j < i then j else j - 1] == x;
    }
    if x in order' {
      var j :| 0 <= j < |order'| && order'[j] == x;
      var j' := if j < i then j else j + 1;
      assert x == order[j'] && rejected[order[j']].1 != rejected[order[i]].1;
    }
  }

  lemma RemoveLists(order: seq<Hash>, rejected: Rejected, i: nat)
    requires Lists(order, rejected) && i < |order|
    ensures Lists(Without(order, i), rejected - {order[i]})
  {
    var order', rejected' := Without(order, i), rejected - {order[i]};
    forall x ensures x in order' <==> x in rejected' { RemoveKeeps(order, rejected, i, x); }
    forall j | 0 <= j < |order'| ensures order'[j] in rejected' { assert order'[j] in order'; }
  }

  lemma RemoveInverse(rejected: Rejected, ages: Ages, last: nat, k: Hash)
    requires Inverse(rejected, ages, last) && k in rejected
    ensures Inverse(rejected - {k}, ages - {rejected[k].1}, last)
  {}

  lemma Remove(order: seq<Hash>, rejected: Rejected, ages: Ages, last: nat, i: nat)
    requires Queued(order, rejected, ages, last) && i < |order|
    ensures Queued(Without(order, i), rejected - {order[i]}, ages - {rejected[order[i]].1}, last)
    ensures Entries(Without(order, i), rejected - {order[i]}) == Without(Entries(order, rejected), i)
  {
    RemoveLists(order, rejected, i);
    RemoveInverse(rejected, ages, last, order[i]);
  }

  /** The list is exactly as long as the map. */
  lemma {:induction false} ListLength(order: seq<Hash>, rejected: Rejected)
    requires Lists(order, rejected)
    ensures |order| == |rejected|
    decreases |order|
  {
    if order == [] {
      assert rejected == map[];
    } else {
      RemoveLists(order, rejected, 0);
      ListLength(Without(order, 0), rejected - {order[0]});
      assert rejected.Keys == (rejected - {order[0]}).Keys + {order[0]};
    }
  }

  /** Giving `k` the next number moves it to the back. */
  lemma Move(order: seq<Hash>, rejected: Rejected, ages: Ages, last: nat, i: nat, order': seq<Hash>,
             rejected': Rejected, ages': Ages)
    requires Queued(order, rejected, ages, last) && i < |order| && order' == ToBack(order, i)
    requires rejected' == rejected[order[i] := (rejected[order[i]].0, last + 1)]
    requires ages' == (ages - {rejected[order[i]].1})[last + 1 := order[i]]
    ensures Queued(order', rejected', ages', last + 1)
    ensures Entries(order', rejected') == ToBack(Entries(order, rejected), i)
  {
    var k := order[i];
    Remove(order, rejected, ages, last, i);
    PushTo(Without(order, i), rejected - {k}, ages - {rejected[k].1}, last, k, rejected[k].0, order', rejected', ages');
  }

  /** Taking the smallest number and its hash out of the maps forgets the first entry. */
  lemma Forget(order: seq<Hash>, rejected: Rejected, ages: Ages, last: nat, oldest: nat, order': seq<Hash>,
               rejected': Rejected, ages': Ages)
    requires Queued(order, rejected, ages, last) && order != []
    requires oldest in ages && forall n | n in ages :: oldest <= n
    requires order' == order[1..] && rejected' == rejected - {ages[oldest]} && ages' == ages - {oldest}
    ensures Queued(order', rejected', ages', last)
    ensures Entries(order', rejected') == Entries(order, rejected)[1..]
  {
    FirstIsOldest(order, rejected, ages, last, oldest);
    Remove(order, rejected, ages, last, 0);
    assert Without(order, 0) == order[1..];
    assert Without(Entries(order, rejected), 0) == Entries(order, rejected)[1..];
  }

  lemma OldestExists(order: seq<Hash>, rejected: Rejected, ages: Ages, last: nat)
    requires Queued(order, rejected, ages, last) && order != []
    ensures exists n :: n in ages && forall n' | n' in ages :: n <= n'
  {
    var n := rejected[order[0]].1;
    assert n in ages;
    forall n' | n' in ages ensures n <= n' { FirstIsOldest(order, rejected, ages, last, n'); }
  }
}
