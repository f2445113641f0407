/** A replica and the admission guards of `Replica::apply_request`.

    Only the two guards exist in the code: the request is refused with
    `NotPrimary` when the cluster's primary is another replica, then with
    `InvalidState` when the replica is not in `Normal` status. What follows the
    guards is `todo!()`, which panics; the model says exactly that. The state
    machine the replica owns is an interface with no behaviour and is not part
    of the model. */
module Replica {
  import opened Wrappers
  import opened OperationLog
  import opened Cluster

  datatype ReplicaStatus = Normal | Recovery | ViewChange

  datatype ReplicaState = ReplicaState(commitNum: nat, viewNum: nat, status: ReplicaStatus)

  datatype ReplicaError = NotPrimary | InvalidState

  /** The client table entry: last request of a client and its response. */
  datatype ClientOperation<O, OR> = ClientOperation(requestNumber: nat, operation: O, response: OR)

  datatype Replica<R, C, O, OR, Ch> = Replica(
    identity: R,
    opLog: MemoryLog<O>,
    clientLog: map<C, ClientOperation<O, OR>>,
    state: ReplicaState,
    cluster: Cluster<R, Ch>)

  datatype Admission = Admitted | Refused(error: ReplicaError)

  /** The guard prefix as a decision over (identity, primary, status).
      `NotPrimary` wins over `InvalidState`; only the primary in `Normal`
      status is admitted. */
  function Admit<R(==)>(identity: R, primary: R, status: ReplicaStatus): (a: Admission)
    ensures a == Admitted <==> identity == primary && status == Normal
    ensures identity != primary ==> a == Refused(NotPrimary)
    ensures identity == primary && status != Normal ==> a == Refused(InvalidState)
  {
    if primary != identity then Refused(NotPrimary)
    else if status != Normal then Refused(InvalidState)
    else Admitted
  }

  /** What `apply_request` leaves behind when it returns. */
  datatype RequestStep<S> = RequestStep(replica: S, result: Result<(), ReplicaError>)

  /** `apply_request(client, request)`: a refused request returns its error
      before any field of the replica is touched; an admitted one reaches
      `todo!()` and panics. */
  function ApplyRequest<R(!new), C, O, OR, Ch>(
    replica: Replica<R, C, O, OR, Ch>, client: C, request: O, lt: (R, R) -> bool
  ): (r: Panicking<RequestStep<Replica<R, C, O, OR, Ch>>>)
    ensures r.Panicked? <==>
              replica.identity == CurrentPrimary(replica.cluster, lt) && replica.state.status == Normal
    ensures r.Completed? ==> r.result.replica == replica && r.result.result.Err?
    ensures replica.identity != CurrentPrimary(replica.cluster, lt) ==>
              r == Completed(RequestStep(replica, Err(NotPrimary)))
    ensures replica.identity == CurrentPrimary(replica.cluster, lt) && replica.state.status != Normal ==>
              r == Completed(RequestStep(replica, Err(InvalidState)))
  {
    match Admit(replica.identity, CurrentPrimary(replica.cluster, lt), replica.state.status)
    case Refused(e) => Completed(RequestStep(replica, Err(e)))
    case Admitted => Panicked
  }

  /** On a bootstrapped cluster, a request gets past the guards exactly at the
      replica whose identity is the least member and whose status is
      `Normal`; every other member is refused with `NotPrimary`, whatever its
      status. */
  lemma OnlyLeastMemberPassesGuards<R(!new), C, O, OR, Ch>(
    replica: Replica<R, C, O, OR, Ch>, channel: Ch, members: seq<R>, client: C, request: O, lt: (R, R) -> bool)
    requires StrictTotalOrder(lt)
    requires Bootstrap(channel, members, lt).Ok?
    requires replica.cluster == Bootstrap(channel, members, lt).value
    ensures ApplyRequest(replica, client, request, lt).Panicked? <==>
              IsLeast(replica.identity, Members(members), lt) && replica.state.status == Normal
    ensures !IsLeast(replica.identity, Members(members), lt) ==>
              ApplyRequest(replica, client, request, lt) == Completed(RequestStep(replica, Err(NotPrimary)))
  {
  }

  /** Two replicas sharing a cluster cannot both get past the guards unless
      they are the same replica identity: there is one primary. */
  lemma AtMostOnePrimaryAdmits<R(!new), C, O, OR, Ch>(
    a: Replica<R, C, O, OR, Ch>, b: Replica<R, C, O, OR, Ch>, client: C, request: O, lt: (R, R) -> bool)
    requires a.cluster == b.cluster
    requires ApplyRequest(a, client, request, lt).Panicked?
    requires ApplyRequest(b, client, request, lt).Panicked?
    ensures a.identity == b.identity
  {
  }
}
