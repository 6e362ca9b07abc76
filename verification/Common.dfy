/** Shared value types. */
module Common {

  datatype Option<+T> = None | Some(value: T)

  /** Success or failure, usable with `:-`. */
  datatype Result<+T, +E> = Ok(value: T) | Err(error: E) {
    predicate IsFailure() {
      Err?
    }

    function PropagateFailure<U>(): Result<U, E>
      requires Err?
    {
      Err(error)
    }

    function Extract(): T
      requires Ok?
    {
      value
    }
  }

  function Max(a: int, b: int): int {
    if a < b then b else a
  }

  function Min(a: int, b: int): int {
    if a < b then a else b
  }

  function Pow2(n: nat): (p: nat)
    ensures p > 0
  {
    if n == 0 then 1 else 2 * Pow2(n - 1)
  }

  /** ASCII lower case. */
  function LowerChar(c: char): char {
    if 'A' <= c <= 'Z' then c + 32 as char else c
  }

  // ----- runs -----

  /** The state after a sequence of labels. */
  function Fold<S, L>(step: (S, L) -> S, s: S, labels: seq<L>): S {
    if labels == [] then s else step(Fold(step, s, labels[..|labels| - 1]), labels[|labels| - 1])
  }

  lemma {:induction false} FoldConcat<S, L>(step: (S, L) -> S, s: S, a: seq<L>, b: seq<L>)
    ensures Fold(step, s, a + b) == Fold(step, Fold(step, s, a), b)
    decreases |b|
  {
    if b == [] {
      assert a + b == a;
    } else {
      FoldConcat(step, s, a, b[..|b| - 1]);
      assert (a + b)[..|a + b| - 1] == a + b[..|b| - 1];
    }
  }

  /** States that follow one another by the labels end where the run ends. */
  lemma {:induction false} FoldTrace<S, L>(step: (S, L) -> S, states: seq<S>, labels: seq<L>)
    requires |states| == |labels| + 1
    requires forall i :: 0 <= i < |labels| ==> step(states[i], labels[i]) == states[i + 1]
    ensures Fold(step, states[0], labels) == states[|labels|]
    decreases |labels|
  {
    if labels != [] {
      var n := |labels| - 1;
      assert forall i :: 0 <= i < n ==> labels[..n][i] == labels[i] && states[..n + 1][i] == states[i];
      FoldTrace(step, states[..n + 1], labels[..n]);
    }
  }

  /** One label six times. */
  lemma FoldSix<S, L>(step: (S, L) -> S, s: S, l: L, after: nat -> S)
    requires step(s, l) == after(0)
    requires forall k: nat :: step(after(k), l) == after(k + 1)
    ensures Fold(step, s, [l, l, l, l, l, l]) == after(5)
  {
    FoldTrace(step, [s, after(0), after(1), after(2), after(3), after(4), after(5)], [l, l, l, l, l, l]);
  }
}
