/** Result and option types shared by the model. */
module Wrappers {

  datatype Option<+T> = None | Some(value: T)

  /** The outcome of an operation that either produces a value or aborts with an error. */
  datatype Result<+R, +E> = Success(value: R) | Failure(error: E)

  /**
   * Running a sequence of steps in order: the values of all of them, or the
   * error of the first one that fails (later steps are never reached).
   */
  function Collect<R, E>(rs: seq<Result<R, E>>): (r: Result<seq<R>, E>)
    ensures r.Success? ==> |r.value| == |rs|
  {
    if |rs| == 0 then Success([])
    else
      match Collect(rs[..|rs| - 1])
      case Failure(e) => Failure(e)
      case Success(done) =>
        match rs[|rs| - 1]
        case Failure(e) => Failure(e)
        case Success(v) => Success(done + [v])
  }

  /** One more successful step extends the collected values by its value. */
  lemma CollectStep<R, E>(rs: seq<Result<R, E>>, k: nat, done: seq<R>, v: R)
    requires k < |rs| && Collect(rs[..k]) == Success(done) && rs[k] == Success(v)
    ensures Collect(rs[..k + 1]) == Success(done + [v])
  {
    assert rs[..k + 1][..k] == rs[..k];
  }

  /** A failing step after a successful prefix is the failure of the whole sequence. */
  lemma CollectStepFails<R, E>(rs: seq<Result<R, E>>, k: nat)
    requires k < |rs| && Collect(rs[..k]).Success? && rs[k].Failure?
    ensures Collect(rs) == Failure(rs[k].error)
  {
    assert rs[..k + 1][..k] == rs[..k];
    CollectFailureSticks(rs, k + 1);
  }

  /** Once a prefix fails, the whole sequence fails with the same error. */
  lemma {:induction false} CollectFailureSticks<R, E>(rs: seq<Result<R, E>>, k: nat)
    requires k <= |rs| && Collect(rs[..k]).Failure?
    ensures Collect(rs) == Collect(rs[..k])
  {
    if k < |rs| {
      var p := rs[..|rs| - 1];
      assert p[..k] == rs[..k];
      CollectFailureSticks(p, k);
    } else {
      assert rs[..k] == rs;
    }
  }

  /** The sequence succeeds exactly when every step does. */
  lemma {:induction false} CollectSuccess<R, E>(rs: seq<Result<R, E>>)
    ensures Collect(rs).Success? <==> forall k | 0 <= k < |rs| :: rs[k].Success?
  {
    if |rs| > 0 {
      var p := rs[..|rs| - 1];
      CollectSuccess(p);
      assert forall k | 0 <= k < |p| :: p[k] == rs[k];
    }
  }

  /** On success, value k is the value of step k. */
  lemma {:induction false} CollectValue<R, E>(rs: seq<Result<R, E>>, k: nat)
    requires k < |rs| && Collect(rs).Success?
    ensures Success(Collect(rs).value[k]) == rs[k]
  {
    var p := rs[..|rs| - 1];
    if k < |p| {
      CollectValue(p, k);
      assert p[k] == rs[k];
    }
  }

  /** On failure, the error is that of a step all of whose predecessors succeeded. */
  lemma {:induction false} CollectFirstFailure<R, E>(rs: seq<Result<R, E>>)
    requires Collect(rs).Failure?
    ensures exists k | 0 <= k < |rs| ::
              rs[k] == Failure(Collect(rs).error) && forall j | 0 <= j < k :: rs[j].Success?
  {
    var p := rs[..|rs| - 1];
    if Collect(p).Failure? {
      CollectFirstFailure(p);
      var k :| 0 <= k < |p| && p[k] == Failure(Collect(p).error) && forall j | 0 <= j < k :: p[j].Success?;
      assert rs[k] == p[k];
      assert forall j | 0 <= j < k :: rs[j] == p[j];
    } else {
      CollectSuccess(p);
      assert forall j | 0 <= j < |p| :: rs[j] == p[j];
    }
  }
}
