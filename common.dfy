/** Small shared vocabulary: optional values, Python truthiness, and sequence helpers. */
module Common {

  datatype Option<T> = None | Some(value: T)

  /** Python truthiness of a value that is None or a string: None and "" are false. */
  predicate Truthy(o: Option<string>)
  {
    o.Some? && o.value != ""
  }

  /** Python truthiness of an optional integer (a `limit=None` argument): None and 0 are false. */
  predicate TruthyInt(o: Option<int>)
  {
    o.Some? && o.value != 0
  }

  /** MAX_COURSES: both dispatchers run five cycles and stop. */
  const MaxCourses: nat := 5

  function Min(a: int, b: int): int
  {
    if a <= b then a else b
  }

  /** The first `n` elements of `s`, or all of them when there are fewer. */
  function Take<T>(s: seq<T>, n: nat): (r: seq<T>)
    ensures |r| == Min(n, |s|)
    ensures r == s[..|r|]
  {
    if n < |s| then s[..n] else s
  }

  /** The elements of `s` that satisfy `p`, in their order in `s`. */
  function Filter<T>(s: seq<T>, p: T -> bool): (r: seq<T>)
    ensures |r| <= |s|
    ensures forall x :: x in r ==> x in s && p(x)
    ensures forall i :: 0 <= i < |s| && p(s[i]) ==> s[i] in r
  {
    if s == [] then []
    else Filter(s[..|s| - 1], p) + (if p(s[|s| - 1]) then [s[|s| - 1]] else [])
  }

  /** No value occurs twice in `s`. */
  predicate Distinct<T(==)>(s: seq<T>)
  {
    forall i, j :: 0 <= i < j < |s| ==> s[i] != s[j]
  }

  /** A prefix one element longer is the shorter prefix and that element. */
  lemma PrefixSnoc<T>(s: seq<T>, i: nat)
    requires i < |s|
    ensures s[..i + 1] == s[..i] + [s[i]] && s[..i + 1][..i] == s[..i]
  {
  }

  /** `step` can be applied to each input in turn, from `s`. */
  ghost predicate FoldDefined<S, I, O>(step: (S, I) --> (S, O), s: S, inputs: seq<I>)
    decreases |inputs|
  {
    inputs != [] ==> step.requires(s, inputs[0]) && FoldDefined(step, step(s, inputs[0]).0, inputs[1..])
  }

  /** Applies `step` to each input in turn, threading the state, and collects the outputs. */
  function Fold<S, I, O>(step: (S, I) --> (S, O), s: S, inputs: seq<I>): (r: (S, seq<O>))
    requires FoldDefined(step, s, inputs)
    ensures |r.1| == |inputs|
    decreases |inputs|
  {
    if inputs == [] then (s, [])
    else
      var first := step(s, inputs[0]);
      var rest := Fold(step, first.0, inputs[1..]);
      (rest.0, [first.1] + rest.1)
  }

  /** The fold resumed after the outputs `done`. */
  function Resumed<S, O>(done: seq<O>, rest: (S, seq<O>)): (S, seq<O>)
  {
    (rest.0, done + rest.1)
  }

  /** The fold from input `i` is the step on input `i`, then the fold from `i + 1`. */
  lemma FoldStep<S, I, O>(step: (S, I) --> (S, O), s: S, inputs: seq<I>, i: nat, done: seq<O>)
    requires i < |inputs| && FoldDefined(step, s, inputs[i..])
    ensures step.requires(s, inputs[i])
    ensures FoldDefined(step, step(s, inputs[i]).0, inputs[i + 1..])
    ensures Resumed(done, Fold(step, s, inputs[i..]))
         == Resumed(done + [step(s, inputs[i]).1], Fold(step, step(s, inputs[i]).0, inputs[i + 1..]))
  {
    assert inputs[i..][1..] == inputs[i + 1..];
    var c := step(s, inputs[i]);
    assert done + ([c.1] + Fold(step, c.0, inputs[i + 1..]).1) == (done + [c.1]) + Fold(step, c.0, inputs[i + 1..]).1;
  }
}
