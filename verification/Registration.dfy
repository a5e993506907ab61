/** Registering the CSI driver: create the discovery object, retrying until the
    context is done. */
module Registration {
  import opened Basics

  datatype Outcome = Registered | AlreadyExists | Refused(error: string)

  /** One call of the clientset's Create: it hands back an object even when it fails. */
  datatype Attempt = Attempt(obj: string, outcome: Outcome)

  /** deadline is the number of attempts that fit before the context's timeout is
      noticed at the head of the loop; attempts(k) is what the k-th would return.
      The error returned is the last one, unless some attempt succeeded.  With no
      attempt at all it is nil although nothing was registered.  The object returned is
      the last attempt's, whatever its outcome. */
  method RegisterDriver(attempts: nat -> Attempt, deadline: nat)
    returns (created: Option<string>, err: Option<string>, made: nat)
    ensures made <= deadline
    ensures err.None? <==> deadline == 0 || exists k: nat :: k < deadline && !attempts(k).outcome.Refused?
    // no attempt follows one that registered the driver or found it registered
    ensures forall k: nat :: k + 1 < made ==> attempts(k).outcome.Refused?
    ensures made < deadline ==> made > 0 && !attempts(made - 1).outcome.Refused?
    ensures err.Some? ==> made == deadline && attempts(made - 1).outcome == Refused(err.value)
    ensures made == 0 ==> created.None?
    ensures made > 0 ==> created == Some(attempts(made - 1).obj)
  {
    created, err, made := None, None, 0;
    var cancelled := false;
    while !cancelled && made < deadline
      invariant made <= deadline
      invariant forall k: nat :: k + 1 < made ==> attempts(k).outcome.Refused?
      invariant made > 0 ==> (cancelled <==> !attempts(made - 1).outcome.Refused?)
      invariant cancelled ==> made > 0 && err.None?
      invariant !cancelled ==> err == if made == 0 then None else Some(attempts(made - 1).outcome.error)
      invariant made == 0 ==> created.None?
      invariant made > 0 ==> created == Some(attempts(made - 1).obj)
      decreases deadline - made, !cancelled
    {
      created := Some(attempts(made).obj);
      match attempts(made).outcome {
        case Refused(e) =>
          err := Some(e);
        case _ =>
          err := None;
          cancelled := true;
      }
      made := made + 1;
    }
  }
}
