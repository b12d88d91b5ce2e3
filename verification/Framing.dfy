/**
 Items one after the other in a run of bytes, for any way `read` and `write` have of taking one off
 the front and putting one there.
 */
module Framing {
  import opened ByteOrder

  /** A value read off the front, and what follows it. */
  datatype Reading<+T> = Cannot | Got(value: T, rest: Bytes)

  type Read<!T> = Bytes -> Reading<T>
  type Write<!T> = (T, Bytes) -> Bytes

  /** What is read is what would have been written. */
  ghost predicate Canonical<T(!new)>(read: Read<T>, write: Write<T>) {
    forall s :: read(s).Got? ==> s == write(read(s).value, read(s).rest)
  }

  /** What is written is read back. */
  ghost predicate Faithful<T(!new)>(read: Read<T>, write: Write<T>) {
    forall i, tail :: read(write(i, tail)) == Got(i, tail)
  }

  function Written<T>(write: Write<T>, items: seq<T>, tail: Bytes): Bytes {
    if items == [] then tail else write(items[0], Written(write, items[1..], tail))
  }

  /** The items that can be read, at most `n`, and what follows them. */
  function Framed<T>(read: Read<T>, s: Bytes, n: nat): (r: (seq<T>, Bytes))
    ensures |r.0| <= n
    decreases n
  {
    var first := read(s);
    if n == 0 || first.Cannot? then ([], s)
    else
      var (more, rest) := Framed(read, first.rest, n - 1);
      ([first.value] + more, rest)
  }

  lemma {:induction false} FramedIsWritten<T(!new)>(read: Read<T>, write: Write<T>, s: Bytes, n: nat)
    requires Canonical(read, write)
    ensures var (items, rest) := Framed(read, s, n);
            s == Written(write, items, rest) && (|items| == n || read(rest).Cannot?)
    decreases n
  {
    var first := read(s);
    if n > 0 && first.Got? {
      FramedIsWritten(read, write, first.rest, n - 1);
      var more := Framed(read, first.rest, n - 1).0;
      assert ([first.value] + more)[1..] == more;
    }
  }

  lemma {:induction false} WrittenIsFramed<T(!new)>(read: Read<T>, write: Write<T>, items: seq<T>, tail: Bytes)
    requires Faithful(read, write)
    ensures Framed(read, Written(write, items, tail), |items|) == (items, tail)
  {
    if items != [] {
      var more := Written(write, items[1..], tail);
      assert read(write(items[0], more)) == Got(items[0], more);
      WrittenIsFramed(read, write, items[1..], tail);
      assert items == [items[0]] + items[1..];
    }
  }

  /** Items of at least `k` bytes each take up that much. */
  lemma {:induction false} WrittenSize<T(!new)>(write: Write<T>, k: nat, items: seq<T>, tail: Bytes)
    requires forall i, t :: |write(i, t)| >= k + |t|
    ensures |Written(write, items, tail)| >= k * |items| + |tail|
  {
    if items != [] {
      WrittenSize(write, k, items[1..], tail);
      assert k * |items| == k + k * (|items| - 1);
    }
  }

  // ---- Reading over and over ---------------------------------------------------------------------

  /** Reads once: what came of it, and what is left. */
  type Step<!R> = Bytes -> (R, Bytes)

  /** The first `n` results of reading over and over. */
  function Results<R>(step: Step<R>, s: Bytes, n: nat): (rs: seq<R>)
    ensures |rs| == n
    decreases n
  {
    if n == 0 then [] else [step(s).0] + Results(step, step(s).1, n - 1)
  }

  /** What is left after them. */
  function Remaining<R>(step: Step<R>, s: Bytes, n: nat): Bytes
    decreases n
  {
    if n == 0 then s else Remaining(step, step(s).1, n - 1)
  }

  lemma {:induction false} ResultsExtend<R>(step: Step<R>, s: Bytes, n: nat)
    ensures Results(step, s, n + 1) == Results(step, s, n) + [step(Remaining(step, s, n)).0]
    ensures Remaining(step, s, n + 1) == step(Remaining(step, s, n)).1
    decreases n
  {
    if n == 0 {
      assert Results(step, step(s).1, 0) == [] && Remaining(step, step(s).1, 0) == step(s).1;
    } else {
      ResultsExtend(step, step(s).1, n - 1);
    }
  }

  /** `s` reads as `rs`, and then as `last`. */
  ghost predicate ReadsAs<R>(step: Step<R>, s: Bytes, rs: seq<R>, last: R) {
    Results(step, s, |rs|) == rs && step(Remaining(step, s, |rs|)).0 == last
  }

  lemma ReadsAsOneMore<R>(step: Step<R>, s: Bytes, first: R, rest: Bytes, rs: seq<R>, last: R)
    requires step(s) == (first, rest) && ReadsAs(step, rest, rs, last)
    ensures ReadsAs(step, s, [first] + rs, last)
  {}

  // ---- Streams cut short -------------------------------------------------------------------------

  /** A format: how a frame is written and what it reads back as; and what a stream reads as that
      stops between frames, or inside one. */
  datatype Format<!F, !R> = Format(write: F -> Bytes, meaning: F -> R, closed: R, cutShort: R)
  {
    function AtEnd(boundary: bool): R { if boundary then closed else cutShort }
  }

  /** Frames read back whatever follows them; parts of frames do not. */
  ghost predicate Honest<F, R>(step: Step<R>, format: Format<F, R>, f: F) {
    && |format.write(f)| > 0
    && (forall tail :: step(format.write(f) + tail) == (format.meaning(f), tail))
    && forall cut | 0 <= cut < |format.write(f)| :: step(format.write(f)[..cut]).0 == format.AtEnd(cut == 0)
  }

  function Stream<F>(write: F -> Bytes, fs: seq<F>): Bytes {
    if fs == [] then [] else write(fs[0]) + Stream(write, fs[1..])
  }

  /** How many whole frames the first `cut` bytes hold. */
  function Whole<F>(write: F -> Bytes, fs: seq<F>, cut: nat): (n: nat)
    ensures n <= |fs|
  {
    if fs == [] || cut < |write(fs[0])| then 0 else 1 + Whole(write, fs[1..], cut - |write(fs[0])|)
  }

  /** Whether the first `cut` bytes end with a frame. */
  predicate OnBoundary<F>(write: F -> Bytes, fs: seq<F>, cut: nat)
    decreases |fs|
  {
    cut == 0 || (fs != [] && cut >= |write(fs[0])| && OnBoundary(write, fs[1..], cut - |write(fs[0])|))
  }

  function Meanings<F, R>(meaning: F -> R, fs: seq<F>): seq<R> {
    if fs == [] then [] else [meaning(fs[0])] + Meanings(meaning, fs[1..])
  }

  lemma CutInTheFirst<F(!new), R(!new)>(step: Step<R>, format: Format<F, R>, f: F, more: Bytes, cut: nat)
    requires Honest(step, format, f) && cut < |format.write(f)|
    ensures ReadsAs(step, (format.write(f) + more)[..cut], [], format.AtEnd(cut == 0))
  {
    assert (format.write(f) + more)[..cut] == format.write(f)[..cut];
  }

  lemma CutLater<F(!new), R(!new)>(step: Step<R>, format: Format<F, R>, f: F, more: Bytes, cut: nat, rs: seq<R>,
                                   last: R)
    requires Honest(step, format, f) && |format.write(f)| <= cut <= |format.write(f)| + |more|
    requires ReadsAs(step, more[..cut - |format.write(f)|], rs, last)
    ensures ReadsAs(step, (format.write(f) + more)[..cut], [format.meaning(f)] + rs, last)
  {
    var b := format.write(f);
    assert (b + more)[..cut] == b + more[..cut - |b|];
    ReadsAsOneMore(step, b + more[..cut - |b|], format.meaning(f), more[..cut - |b|], rs, last);
  }

  lemma MeaningsOneMore<F, R>(meaning: F -> R, fs: seq<F>, n: nat)
    requires n < |fs|
    ensures Meanings(meaning, fs[..n + 1]) == [meaning(fs[0])] + Meanings(meaning, fs[1..][..n])
  {
    assert fs[..n + 1][1..] == fs[1..][..n];
  }

  /** A stream of frames cut anywhere reads as its whole frames, and then as closed if the cut is between
      frames and as cut short if it is inside one. */
  lemma {:induction false} CutStreamReads<F(!new), R(!new)>(step: Step<R>, format: Format<F, R>, fs: seq<F>, cut: nat)
    requires (forall f | f in fs :: Honest(step, format, f)) && step([]).0 == format.closed
    requires cut <= |Stream(format.write, fs)|
    ensures ReadsAs(step, Stream(format.write, fs)[..cut], Meanings(format.meaning, fs[..Whole(format.write, fs, cut)]),
                    format.AtEnd(OnBoundary(format.write, fs, cut)))
    decreases |fs|
  {
    if fs != [] {
      var b, more := format.write(fs[0]), Stream(format.write, fs[1..]);
      if cut < |b| {
        CutInTheFirst(step, format, fs[0], more, cut);
      } else {
        CutStreamReads(step, format, fs[1..], cut - |b|);
        var n := Whole(format.write, fs[1..], cut - |b|);
        MeaningsOneMore(format.meaning, fs, n);
        CutLater(step, format, fs[0], more, cut, Meanings(format.meaning, fs[1..][..n]),
                 format.AtEnd(OnBoundary(format.write, fs[1..], cut - |b|)));
      }
    }
  }

  lemma {:induction false} WholeStream<F>(write: F -> Bytes, fs: seq<F>)
    requires forall f | f in fs :: |write(f)| > 0
    ensures Whole(write, fs, |Stream(write, fs)|) == |fs| && OnBoundary(write, fs, |Stream(write, fs)|)
  {
    if fs != [] { WholeStream(write, fs[1..]); }
  }
}
