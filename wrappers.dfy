/** Option and Result: the model's stand-ins for `undefined`/`null` and for thrown errors. */
module Wrappers {

  /** A value that may be absent (`undefined` or `null` in the source). */
  datatype Option<+T> = None | Some(value: T)

  /** The outcome of an operation that may throw: `Failure` carries the error message. */
  datatype Result<+T> = Success(value: T) | Failure(error: string)

  /** Steps run one after another, each pushing its value: the first step that throws ends the run with its error. */
  function Sequence<T>(rs: seq<Result<T>>): Result<seq<T>>
  {
    if rs == [] then Success([])
    else
      var init := Sequence(rs[..|rs| - 1]);
      var last := rs[|rs| - 1];
      if init.Failure? then init
      else if last.Failure? then Failure(last.error)
      else Success(init.value + [last.value])
  }

  /** One more step after a successful prefix: its value is pushed, or its error ends the run. */
  lemma SequenceStep<T>(rs: seq<Result<T>>, i: nat)
    requires i < |rs|
    requires Sequence(rs[..i]).Success?
    ensures Sequence(rs[..i + 1]) ==
      if rs[i].Failure? then Failure(rs[i].error) else Success(Sequence(rs[..i]).value + [rs[i].value])
  {
    assert rs[..i + 1][..i] == rs[..i];
    assert rs[..i + 1][i] == rs[i];
  }

  /** Once a prefix of the run has failed, the whole run fails with the same error. */
  lemma {:induction false} SequenceFailurePersists<T>(rs: seq<Result<T>>, n: nat)
    requires n <= |rs|
    requires Sequence(rs[..n]).Failure?
    ensures Sequence(rs) == Sequence(rs[..n])
    decreases |rs| - n
  {
    if n < |rs| {
      assert rs[..n + 1][..n] == rs[..n];
      SequenceFailurePersists(rs, n + 1);
    } else {
      assert rs[..n] == rs;
    }
  }

  /** The run fails exactly when some step fails. */
  lemma {:induction false} SequenceFailure<T>(rs: seq<Result<T>>)
    ensures Sequence(rs).Failure? <==> exists i :: 0 <= i < |rs| && rs[i].Failure?
  {
    if rs != [] {
      var init := rs[..|rs| - 1];
      SequenceFailure(init);
      assert forall i :: 0 <= i < |init| ==> init[i] == rs[i];
    }
  }

  /** A run that succeeds has one value per step, in order. */
  lemma {:induction false} SequenceSuccess<T>(rs: seq<Result<T>>)
    requires Sequence(rs).Success?
    ensures |Sequence(rs).value| == |rs|
    ensures forall i :: 0 <= i < |rs| ==> Success(Sequence(rs).value[i]) == rs[i]
  {
    if rs != [] {
      var init := rs[..|rs| - 1];
      SequenceSuccess(init);
      assert forall i :: 0 <= i < |init| ==> init[i] == rs[i];
    }
  }
}
