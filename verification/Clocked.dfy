/** Synchronous machines: what a step function does over a whole run of input cycles. */
module Clocked {

  /** The state after the cycles of ins, one step per cycle. */
  function Run<S, I>(step: (S, I) -> S, s: S, ins: seq<I>): S
    decreases |ins|
  {
    if ins == [] then s else Run(step, step(s, ins[0]), ins[1..])
  }

  /** What an observer of the registered outputs sees in each of the cycles of ins. */
  function Trace<S, I, O>(step: (S, I) -> S, view: S -> O, s: S, ins: seq<I>): (t: seq<O>)
    ensures |t| == |ins|
    decreases |ins|
  {
    if ins == [] then [] else [view(s)] + Trace(step, view, step(s, ins[0]), ins[1..])
  }

  /** Fed with ins from s, the machine shows the outputs out and ends in end. */
  ghost predicate Behaves<S, I, O>(step: (S, I) -> S, view: S -> O, s: S, ins: seq<I>, out: seq<O>, end: S) {
    Trace(step, view, s, ins) == out && Run(step, s, ins) == end
  }

  function Rep<T>(x: T, n: nat): seq<T> {
    seq(n, _ => x)
  }

  lemma {:induction false} RunSplit<S, I>(step: (S, I) -> S, s: S, a: seq<I>, b: seq<I>)
    ensures Run(step, s, a + b) == Run(step, Run(step, s, a), b)
    decreases |a|
  {
    if a == [] {
      assert a + b == b;
    } else {
      assert (a + b)[1..] == a[1..] + b;
      RunSplit(step, step(s, a[0]), a[1..], b);
    }
  }

  lemma {:induction false} TraceSplit<S, I, O>(step: (S, I) -> S, view: S -> O, s: S, a: seq<I>, b: seq<I>)
    ensures Trace(step, view, s, a + b) == Trace(step, view, s, a) + Trace(step, view, Run(step, s, a), b)
    decreases |a|
  {
    if a == [] {
      assert a + b == b;
    } else {
      assert (a + b)[1..] == a[1..] + b;
      TraceSplit(step, view, step(s, a[0]), a[1..], b);
    }
  }

  /** One more cycle at the end of a run. */
  lemma {:induction false} RunLast<S, I>(step: (S, I) -> S, s: S, ins: seq<I>)
    requires ins != []
    ensures Run(step, s, ins) == step(Run(step, s, ins[..|ins| - 1]), ins[|ins| - 1])
  {
    var last := [ins[|ins| - 1]];
    assert ins == ins[..|ins| - 1] + last;
    RunSplit(step, s, ins[..|ins| - 1], last);
    assert last[1..] == [];
  }

  lemma {:induction false} TraceLast<S, I, O>(step: (S, I) -> S, view: S -> O, s: S, ins: seq<I>)
    requires ins != []
    ensures Trace(step, view, s, ins) == Trace(step, view, s, ins[..|ins| - 1]) + [view(Run(step, s, ins[..|ins| - 1]))]
  {
    var last := [ins[|ins| - 1]];
    assert ins == ins[..|ins| - 1] + last;
    TraceSplit(step, view, s, ins[..|ins| - 1], last);
    assert last[1..] == [];
  }

  /** Two behaviours one after the other. */
  lemma {:induction false} Compose<S, I, O>(step: (S, I) -> S, view: S -> O, s: S, ins: seq<I>, n: nat,
                         p: seq<O>, mid: S, q: seq<O>, end: S)
    requires n <= |ins|
    requires Behaves(step, view, s, ins[..n], p, mid)
    requires Behaves(step, view, mid, ins[n..], q, end)
    ensures Behaves(step, view, s, ins, p + q, end)
  {
    assert ins == ins[..n] + ins[n..];
    RunSplit(step, s, ins[..n], ins[n..]);
    TraceSplit(step, view, s, ins[..n], ins[n..]);
  }

  /** Three behaviours one after the other. */
  lemma {:induction false} Compose3<S, I, O>(step: (S, I) -> S, view: S -> O, s: S, ins: seq<I>, n: nat, m: nat,
                          p: seq<O>, a: S, q: seq<O>, b: S, r: seq<O>, end: S)
    requires n <= m <= |ins|
    requires Behaves(step, view, s, ins[..n], p, a)
    requires Behaves(step, view, a, ins[n..m], q, b)
    requires Behaves(step, view, b, ins[m..], r, end)
    ensures Behaves(step, view, s, ins, p + q + r, end)
  {
    var head := ins[..m];
    assert head[..n] == ins[..n] && head[n..] == ins[n..m];
    Compose(step, view, s, head, n, p, a, q, b);
    Compose(step, view, s, ins, m, p + q, b, r, end);
  }

  /** A behaviour of a single cycle. */
  lemma {:induction false} Once<S, I, O>(step: (S, I) -> S, view: S -> O, s: S, ins: seq<I>)
    requires |ins| == 1
    ensures Behaves(step, view, s, ins, [view(s)], step(s, ins[0]))
  {
    assert ins[1..] == [];
  }

  /** The beginning of a run shows the beginning of its trace. */
  lemma {:induction false} TracePrefix<S, I, O>(step: (S, I) -> S, view: S -> O, s: S, ins: seq<I>, n: nat)
    requires n <= |ins|
    ensures Trace(step, view, s, ins[..n]) == Trace(step, view, s, ins)[..n]
    ensures n < |ins| ==> view(Run(step, s, ins[..n])) == Trace(step, view, s, ins)[n]
  {
    assert ins == ins[..n] + ins[n..];
    TraceSplit(step, view, s, ins[..n], ins[n..]);
  }
}
