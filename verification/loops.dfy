/** The month loop the treasury breakdown runs: a step function applied to
    each month in turn, threading a state and emitting one item per month. */
module Loops {

  datatype Unrolled<S, E> = Unrolled(items: seq<E>, final: S)

  /** The items of months c to last, inclusive, and the state after them. */
  function MonthLoop<S, E>(step: (S, int) -> (S, E), st: S, c: int, last: int): (r: Unrolled<S, E>)
    ensures |r.items| == if c <= last then last - c + 1 else 0
    decreases last + 1 - c
  {
    if c > last then Unrolled([], st)
    else
      var out := step(st, c);
      var rest := MonthLoop(step, out.0, c + 1, last);
      Unrolled([out.1] + rest.items, rest.final)
  }

  /** The state in which month c + k is entered. */
  function StateAt<S, E>(step: (S, int) -> (S, E), st: S, c: int, k: nat): S
    decreases k
  {
    if k == 0 then st else StateAt(step, step(st, c).0, c + 1, k - 1)
  }

  /** Item k is the step of month c + k from the state the months before it
      left: nothing but the threaded state passes from one month to the next. */
  lemma {:induction false} ItemIsStepFromState<S, E>(step: (S, int) -> (S, E), st: S, c: int, last: int, k: nat)
    requires c + k <= last
    ensures MonthLoop(step, st, c, last).items[k] == step(StateAt(step, st, c, k), c + k).1
    decreases k
  {
    var out := step(st, c);
    var rest := MonthLoop(step, out.0, c + 1, last);
    assert MonthLoop(step, st, c, last).items == [out.1] + rest.items;
    if k > 0 {
      ItemIsStepFromState(step, out.0, c + 1, last, k - 1);
      assert c + 1 + (k - 1) == c + k;
    }
  }

  /** The final state is the state after every month. */
  lemma {:induction false} FinalIsStateAfterLastMonth<S, E>(step: (S, int) -> (S, E), st: S, c: int, last: int)
    requires c <= last + 1
    ensures MonthLoop(step, st, c, last).final == StateAt(step, st, c, last + 1 - c)
    decreases last + 1 - c
  {
    if c <= last {
      FinalIsStateAfterLastMonth(step, step(st, c).0, c + 1, last);
    }
  }

  /** One more month moves the state by one step. */
  lemma {:induction false} StateAtStep<S, E>(step: (S, int) -> (S, E), st: S, c: int, k: nat)
    ensures StateAt(step, st, c, k + 1) == step(StateAt(step, st, c, k), c + k).0
    decreases k
  {
    if k > 0 {
      StateAtStep(step, step(st, c).0, c + 1, k - 1);
      assert c + 1 + (k - 1) == c + k;
    }
  }
}
