/** The two result shapes shared by every component, and runs of a step that may fail. */
module Wrappers {

  datatype Option<+T> = None | Some(value: T)

  datatype Result<+T, +E> = Ok(value: T) | Err(error: E)

  /** Runs a step over the inputs in order and stops at the first error. */
  function Fold<S, X, E>(step: (S, X) -> Result<S, E>, start: S, inputs: seq<X>): Result<S, E> {
    if inputs == [] then Ok(start)
    else
      var front := Fold(step, start, inputs[..|inputs| - 1]);
      if front.Err? then front else step(front.value, inputs[|inputs| - 1])
  }

  lemma FoldStep<S, X, E>(step: (S, X) -> Result<S, E>, start: S, inputs: seq<X>, k: nat)
    requires k < |inputs|
    ensures Fold(step, start, inputs[..k]).Ok? ==>
              Fold(step, start, inputs[..k + 1]) == step(Fold(step, start, inputs[..k]).value, inputs[k])
    ensures Fold(step, start, inputs[..k]).Err? ==> Fold(step, start, inputs[..k + 1]) == Fold(step, start, inputs[..k])
  {
    assert inputs[..k + 1][..k] == inputs[..k];
  }

  /** The first error is final, so every prefix of a successful run succeeded. */
  lemma {:induction false} FoldPrefix<S, X, E>(step: (S, X) -> Result<S, E>, start: S, inputs: seq<X>, k: nat)
    requires k <= |inputs|
    ensures Fold(step, start, inputs[..k]).Err? ==> Fold(step, start, inputs) == Fold(step, start, inputs[..k])
    decreases |inputs| - k
  {
    if k < |inputs| {
      FoldPrefix(step, start, inputs, k + 1);
      FoldStep(step, start, inputs, k);
    } else {
      assert inputs[..k] == inputs;
    }
  }

  /** A failed run succeeded up to the input whose step failed. */
  lemma {:induction false} FoldFails<S, X, E>(step: (S, X) -> Result<S, E>, start: S, inputs: seq<X>) returns (k: nat)
    requires Fold(step, start, inputs).Err?
    ensures k < |inputs| && Fold(step, start, inputs[..k]).Ok?
    ensures step(Fold(step, start, inputs[..k]).value, inputs[k]) == Fold(step, start, inputs)
  {
    var front := inputs[..|inputs| - 1];
    if Fold(step, start, front).Err? {
      k := FoldFails(step, start, front);
      assert front[..k] == inputs[..k];
    } else {
      k := |inputs| - 1;
    }
  }

  lemma {:induction false} SmallerSet<T>(a: set<T>, b: set<T>)
    requires a <= b
    ensures |a| <= |b|
  {
    if a != {} {
      var x :| x in a;
      SmallerSet(a - {x}, b - {x});
    }
  }
}
