/** Cluster membership and primary selection (`Cluster::bootstrap` and
    `Cluster::current_primary`).

    Replica identities are an abstract type `R` ordered by a strict total
    order `lt`, standing for Rust's `Ord` on `ReplicaIdentity`. The transport
    channel is an opaque value of type `Ch` that the cluster only stores. No
    code shown reads or fills the message buffer, so only the number of
    buffered envelopes is kept. */
module Cluster {
  import opened Wrappers

  datatype ClusterError = InsufficientReplicas

  datatype Cluster<R, Ch> = Cluster(channel: Ch, replicas: set<R>, currentPrimary: R, bufferedMessages: nat)

  /** The fewest distinct replicas a cluster may be bootstrapped with. */
  const MinReplicas: nat := 3

  /** `lt` is irreflexive, transitive and total on distinct values. */
  ghost predicate StrictTotalOrder<R(!new)>(lt: (R, R) -> bool) {
    && (forall a :: !lt(a, a))
    && (forall a, b, c :: lt(a, b) && lt(b, c) ==> lt(a, c))
    && (forall a, b :: a != b ==> lt(a, b) || lt(b, a))
  }

  /** `m` is the least element of `s` under `lt`. */
  ghost predicate IsLeast<R(!new)>(m: R, s: set<R>, lt: (R, R) -> bool) {
    m in s && forall x :: x in s && x != m ==> lt(m, x)
  }

  /** The set a collection of identities turns into (`Into<BTreeSet<_>>`). */
  function Members<R(!new)>(replicas: seq<R>): set<R> {
    set x | x in replicas
  }

  /** No identity is listed twice. */
  predicate NoDuplicates<R(==)>(replicas: seq<R>) {
    forall i, j :: 0 <= i < j < |replicas| ==> replicas[i] != replicas[j]
  }

  /** Converting to a set never adds identities and, when some identity is
      listed twice, loses at least one from the count; without duplicates the
      count is the length of the list. */
  lemma {:induction false} MembersCardinality<R(!new)>(replicas: seq<R>)
    ensures |Members(replicas)| <= |replicas|
    ensures NoDuplicates(replicas) <==> |Members(replicas)| == |replicas|
    decreases |replicas|
  {
    if replicas != [] {
      var head, tail := replicas[0], replicas[1..];
      MembersCardinality(tail);
      assert Members(replicas) == {head} + Members(tail);
      if NoDuplicates(replicas) {
        assert NoDuplicates(tail);
        assert head !in Members(tail);
      } else if head !in Members(tail) {
        assert !NoDuplicates(tail) by {
          var i, j :| 0 <= i < j < |replicas| && replicas[i] == replicas[j];
          assert i > 0 && tail[i - 1] == tail[j - 1];
        }
      } else {
        assert Members(replicas) == Members(tail);
      }
    }
  }

  /** The least identity in a non-empty collection (`BTreeSet::first`). */
  function Least<R(!new)>(replicas: seq<R>, lt: (R, R) -> bool): (m: R)
    requires |replicas| > 0
    requires StrictTotalOrder(lt)
    ensures IsLeast(m, Members(replicas), lt)
    decreases |replicas|
  {
    if |replicas| == 1 then replicas[0]
    else
      var rest := Least(replicas[1..], lt);
      assert Members(replicas) == {replicas[0]} + Members(replicas[1..]);
      if lt(replicas[0], rest) then replicas[0] else rest
  }

  /** Under a strict total order a set has at most one least element. */
  lemma LeastIsUnique<R(!new)>(m: R, n: R, s: set<R>, lt: (R, R) -> bool)
    requires StrictTotalOrder(lt)
    requires IsLeast(m, s, lt) && IsLeast(n, s, lt)
    ensures m == n
  {
  }

  /** `bootstrap`: fails with `InsufficientReplicas` exactly when fewer than
      three DISTINCT identities are given; otherwise stores the membership
      set and the channel, fixes the primary to its least element and starts
      with an empty message buffer. */
  function Bootstrap<R(!new), Ch>(channel: Ch, replicas: seq<R>, lt: (R, R) -> bool): (r: Result<Cluster<R, Ch>, ClusterError>)
    requires StrictTotalOrder(lt)
    ensures r.Err? <==> |Members(replicas)| < MinReplicas
    ensures r.Ok? ==> r.value.replicas == Members(replicas)
    ensures r.Ok? ==> IsLeast(r.value.currentPrimary, r.value.replicas, lt)
    ensures r.Ok? ==> r.value.channel == channel && r.value.bufferedMessages == 0
  {
    var members := Members(replicas);
    if |members| < MinReplicas then Err(InsufficientReplicas)
    else
      Ok(Cluster(channel, members, Least(replicas, lt), 0))
  }

  /** A cluster as `bootstrap` leaves it: enough members and the least of
      them as primary. Nothing in the cluster changes these afterwards. */
  ghost predicate Valid<R(!new), Ch>(c: Cluster<R, Ch>, lt: (R, R) -> bool) {
    |c.replicas| >= MinReplicas && IsLeast(c.currentPrimary, c.replicas, lt)
  }

  /** Every cluster `bootstrap` returns is valid. */
  lemma BootstrapIsValid<R(!new), Ch>(channel: Ch, replicas: seq<R>, lt: (R, R) -> bool)
    requires StrictTotalOrder(lt)
    requires Bootstrap(channel, replicas, lt).Ok?
    ensures Valid(Bootstrap(channel, replicas, lt).value, lt)
  {
  }

  /** The primary a bootstrapped cluster reports is the least identity of the
      input, fixed when the cluster was built. */
  lemma CurrentPrimaryIsFixedAtBootstrap<R(!new), Ch>(channel: Ch, replicas: seq<R>, lt: (R, R) -> bool)
    requires StrictTotalOrder(lt)
    requires Bootstrap(channel, replicas, lt).Ok?
    ensures |replicas| > 0
    ensures CurrentPrimary(Bootstrap(channel, replicas, lt).value, lt) == Least(replicas, lt)
  {
    MembersCardinality(replicas);
    var c := Bootstrap(channel, replicas, lt).value;
    LeastIsUnique(c.currentPrimary, Least(replicas, lt), Members(replicas), lt);
  }

  /** `current_primary`: a read-only query; on a bootstrapped cluster it names
      the least member. */
  function CurrentPrimary<R(!new), Ch>(c: Cluster<R, Ch>, lt: (R, R) -> bool): (p: R)
    ensures Valid(c, lt) ==> p in c.replicas
    ensures Valid(c, lt) ==> forall x :: x in c.replicas && x != p ==> lt(p, x)
  {
    c.currentPrimary
  }

  /** The primary depends only on the membership SET: two inputs listing the
      same identities, in any order and with any repetitions, bootstrap the
      same cluster with the same primary. */
  lemma BootstrapDependsOnlyOnMembers<R(!new), Ch>(channel: Ch, xs: seq<R>, ys: seq<R>, lt: (R, R) -> bool)
    requires StrictTotalOrder(lt)
    requires forall x :: x in xs <==> x in ys
    ensures Bootstrap(channel, xs, lt) == Bootstrap(channel, ys, lt)
  {
    assert Members(xs) == Members(ys);
    var a := Bootstrap(channel, xs, lt);
    var b := Bootstrap(channel, ys, lt);
    if a.Ok? {
      LeastIsUnique(a.value.currentPrimary, b.value.currentPrimary, Members(xs), lt);
    }
  }

  /** Duplicates do not count toward the minimum: a list of exactly three
      entries bootstraps exactly when the three are pairwise distinct, and
      three entries that name only one or two identities, in any order, are
      refused with `InsufficientReplicas`. */
  lemma DuplicatesDoNotCount<R(!new), Ch>(channel: Ch, replicas: seq<R>, lt: (R, R) -> bool)
    requires StrictTotalOrder(lt)
    requires |replicas| == MinReplicas
    ensures Bootstrap(channel, replicas, lt).Ok? <==> NoDuplicates(replicas)
    ensures |Members(replicas)| < MinReplicas ==> Bootstrap(channel, replicas, lt) == Err(InsufficientReplicas)
  {
    MembersCardinality(replicas);
  }

  /** For a list without duplicates the minimum of three is a minimum on the
      length: such a list is refused exactly when it is shorter than three. */
  lemma DistinctInputBootstrapsByLength<R(!new), Ch>(channel: Ch, replicas: seq<R>, lt: (R, R) -> bool)
    requires StrictTotalOrder(lt)
    requires NoDuplicates(replicas)
    ensures Bootstrap(channel, replicas, lt).Err? <==> |replicas| < MinReplicas
  {
    MembersCardinality(replicas);
  }

  /** A list with a repeated identity needs more than three entries: any
      such list of three or fewer entries is refused. */
  lemma RepeatedInputOfThreeIsRefused<R(!new), Ch>(channel: Ch, replicas: seq<R>, lt: (R, R) -> bool)
    requires StrictTotalOrder(lt)
    requires !NoDuplicates(replicas) && |replicas| <= MinReplicas
    ensures Bootstrap(channel, replicas, lt) == Err(InsufficientReplicas)
  {
    MembersCardinality(replicas);
  }
}
