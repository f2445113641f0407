# togo-vr replication core, modelled in Dafny

This project models the three pieces of the `togo-vr` crate that have an implementation:

- **The in-memory operation log** (`MemoryLog<T>`). Entries are addressed by a global op number, `offset + local position`. It supports `get`, `push`, `trim_front` and `trim_end`, plus the three size queries. Module `OperationLog` (`operation_log.dfy`) models it as an immutable `MemoryLog(offset: nat, data: seq<T>)`. The mutating calls are pure functions that return `Result<MemoryLog<T>, LogError>`. `Apply` and `Run` give the `&mut self` view: a failing call leaves the log as it was, and a run of calls stops at the first error, as `unwrap()` does. Module `LogExamples` (`log_examples.dfy`) holds worked examples as lemmas: the two unit tests of the log, the panic of `get` on a fresh log, and an index that `trim_end` frees being filled again by `push`.
- **Cluster bootstrap and primary selection** (`Cluster::bootstrap`, `Cluster::current_primary`), in module `Cluster` (`cluster.dfy`). Replica identities are an abstract type `R`. Rust's `Ord` on identities becomes a strict total order `lt`, passed as a parameter. The input collection is a `seq<R>`, and it is turned into a set just as `Into<BTreeSet<_>>` does.
- **The admission guards of `Replica::apply_request`**, in module `Replica` (`replica.dfy`). There are two guards: `NotPrimary`, then `InvalidState`. The rest of the function is `todo!()`, so the model treats it as a panic.

Shared failure types are in `Wrappers` (`wrappers.dfy`). `Result` stands for Rust's `Result`. `Panicking` stands for a call that can abort with a panic: an `unwrap()` on `None`, or `todo!()`.

Where the model departs from the code, or the code from itself:
- `get` rejects only `index > current_size_with_offset()` (togo-vr/src/log/memory.rs:39). In the same file, `trim_front` and `trim_end` reject `>= current_size_with_offset()` (memory.rs:55 and :72). The model keeps both versions of `get`. `GetAsWritten` follows the code, including the panic. `Get` uses the `>=` bound of the two trims, and the contracts of `Push`, `TrimFront`, `TrimEnd`, `Run` and `PushesAreContiguous` are stated with it. The example lemmas read through `GetAsWritten`, as the unit tests do; only `GetOnFreshLogPanics` also reads through `Get`, to set the two side by side (see Findings).
- The code fixes the primary to the least member at bootstrap (cluster.rs:38), and nothing shown changes it. The model follows this.
- The `Log` trait declares `push` infallible (log/mod.rs:12). The implementation returns `LogResult<()>`, and that result is always `Ok` (memory.rs:48-52). `Push` returns a `Result` and promises it is `Ok`.

## Model

| member | source | states |
|---|---|---|
| `OperationLog.New` | togo-vr/src/log/memory.rs:11-16 | a new log has no entries and offset 0, so every `Get` fails with `InvalidIndex` |
| `OperationLog.SizeWithOffsetEndsWindow` | togo-vr/src/log/memory.rs:26-46 | `current_size_with_offset()` is where the readable window ends. Every index from the offset up to it is readable. That index itself is not, and neither is any index above it |
| `OperationLog.Get` | togo-vr/src/log/memory.rs:38-46 | `get` with the `>=` bound that `trim_front` and `trim_end` use (memory.rs:55, :72): it succeeds exactly on `[offset, size_with_offset)` and returns the entry at local position `index - offset`; any other index gives `InvalidIndex` |
| `OperationLog.GetAsWritten` | togo-vr/src/log/memory.rs:38-46 | `get` as written panics exactly when `index == size_with_offset`; on every other index it returns what `Get` returns, including `InvalidIndex` for `index < offset` |
| `OperationLog.Push` | togo-vr/src/log/memory.rs:48-52 | `push` always succeeds and keeps the offset. It adds one to the size, and the value becomes readable at the old `size_with_offset`, which is the new `size_with_offset - 1`. Every other index reads as before |
| `OperationLog.TrimFront` | togo-vr/src/log/memory.rs:54-69 | `trim_front(first)` fails with `InvalidIndex` exactly when `first < offset` or `first >= size_with_offset`, and so always on an empty log. `trim_front(offset)` on a non-empty log gives back the same log. On success the offset becomes `first` and `size_with_offset` is unchanged. Every index `>= first` reads as before, and every index `< first` becomes unreadable |
| `OperationLog.TrimEnd` | togo-vr/src/log/memory.rs:71-81 | `trim_end(last)` fails with `InvalidIndex` under the same bounds, and so always on an empty log. On success the offset stays the same and `size_with_offset` becomes `last`. Every index below `last` reads as before, and every index from `last` up becomes unreadable |
| `OperationLog.ObservationallyEqual` | togo-vr/src/log/memory.rs:5-8 | a log is determined by its offset, its `size_with_offset` and its `get` answers, so the contracts of `Push`, `TrimFront` and `TrimEnd` fix their results completely |
| `OperationLog.Apply` | togo-vr/src/log/memory.rs:48-81 | one call through `&mut self`: a failing call leaves the log untouched, and `push` never fails. No call moves the offset backwards, and only `trim_end` can shrink `size_with_offset` |
| `OperationLog.Run` | togo-vr/src/log/memory.rs:48-81 | over any sequence of calls the offset never decreases, so no index below the starting offset becomes readable again |
| `OperationLog.PushesAreContiguous` | togo-vr/src/log/memory.rs:48-52 | pushing `v0..vn-1` onto any log always succeeds and keeps the offset. Each `vk` lands at global index `size_with_offset + k`, and every older index reads as before |
| `LogExamples.GetRetrievesCorrectElement` | togo-vr/src/log/memory.rs:90-116 | the answers the `get_retrieves_correct_element` test expects, derived for the model and read through `get` as written |
| `LogExamples.SizeIsCorrectWhenPushedAndTrimmed` | togo-vr/src/log/memory.rs:118-148 | the sizes the `size_is_correct_when_pushed_and_trimmed` test expects, derived for the model |
| `LogExamples.TrimEndThenPushRefills` | togo-vr/src/log/memory.rs:48-81 | the monotone offset protects only front-trimmed indices: on `[10, 20, 30]`, `trim_end(1)` followed by `push(99)` makes index 1, which read 20, read 99, both read through `get` as written |
| `LogExamples.GetOnFreshLogPanics` | togo-vr/src/log/memory.rs:39-45 | on a fresh log, `get(0)` as written panics, while the intended check answers `InvalidIndex` |
| `Cluster.MembersCardinality` | togo-vr/src/replica/cluster.rs:32-34 | converting the input to a `BTreeSet` never gives more identities than there are entries. The count equals the number of entries exactly when no identity is listed twice |
| `Cluster.Least` | togo-vr/src/replica/cluster.rs:38 | `replicas.first()` is a member that is below every other member in the identity order |
| `Cluster.Bootstrap` | togo-vr/src/replica/cluster.rs:28-46 | `bootstrap` fails with `InsufficientReplicas` exactly when fewer than 3 distinct identities are given. Otherwise it stores the membership set and the channel unchanged. The primary is the least member, and hence a member, and the message buffer starts empty |
| `Cluster.BootstrapIsValid` | togo-vr/src/replica/cluster.rs:34-45 | every cluster `bootstrap` returns has at least 3 members, and its stored primary is the least of them |
| `Cluster.CurrentPrimaryIsFixedAtBootstrap` | togo-vr/src/replica/cluster.rs:38-50 | on a cluster from `bootstrap`, `current_primary()` returns the least identity of the input, the value fixed when the cluster was built |
| `Cluster.CurrentPrimary` | togo-vr/src/replica/cluster.rs:48-50 | `current_primary()` is a read-only query. On a cluster as bootstrap leaves it, the answer is a member that is below every other member |
| `Cluster.BootstrapDependsOnlyOnMembers` | togo-vr/src/replica/cluster.rs:32-38 | two inputs that list the same identities, in any order and with any repetition, bootstrap the same cluster with the same primary |
| `Cluster.DuplicatesDoNotCount` | togo-vr/src/replica/cluster.rs:32-36 | a list of exactly three entries bootstraps exactly when no identity is repeated. Any three entries that name only one or two identities, in any order, are refused with `InsufficientReplicas` |
| `Cluster.DistinctInputBootstrapsByLength` | togo-vr/src/replica/cluster.rs:32-36 | a list without repeated identities is refused exactly when it has fewer than 3 entries |
| `Cluster.RepeatedInputOfThreeIsRefused` | togo-vr/src/replica/cluster.rs:32-36 | every list of at most 3 entries that repeats an identity is refused with `InsufficientReplicas` |
| `Replica.Admit` | togo-vr/src/replica/mod.rs:53-62 | a different identity is refused with `NotPrimary` whatever the status. The primary in `Recovery` or `ViewChange` is refused with `InvalidState`. Only `identity == primary && status == Normal` gets past the guards |
| `Replica.ApplyRequest` | togo-vr/src/replica/mod.rs:53-63 | a refused request returns `NotPrimary` or `InvalidState` and leaves the whole replica (log, client table, state, cluster) unchanged; a request that gets past both guards reaches `todo!()` and panics |
| `Replica.OnlyLeastMemberPassesGuards` | togo-vr/src/replica/mod.rs:53-62 | with a cluster from `bootstrap`, a request gets past the guards exactly when the replica's identity is the least member and its status is `Normal`. Any other identity is refused with `NotPrimary` |
| `Replica.AtMostOnePrimaryAdmits` | togo-vr/src/replica/mod.rs:54-56 | two replicas that share a cluster both get past the guards only if they have the same identity |

## Findings

| source | as written | input that shows it | evidently intended | confidence | as-written member | corrected member |
|---|---|---|---|---|---|---|
| togo-vr/src/log/memory.rs:39 | `get` rejects `index > size_with_offset`, so `index == size_with_offset` passes the guard and the `unwrap()` at line 45 panics | `get(0)` on a new log, or `get(current_size_with_offset())` on any log | reject `index >= size_with_offset` with `InvalidIndex`, the bound `trim_front` and `trim_end` use at memory.rs:55 and :72 | high, not executed | `OperationLog.GetAsWritten` (with `LogExamples.GetOnFreshLogPanics`) | `OperationLog.Get` |

## Left out

- Everything after the guards in `apply_request` is `todo!()` (togo-vr/src/replica/mod.rs:62). The code has no client-table deduplication, Prepare/PrepareOk/Commit handling, quorum commit, view change or recovery, so there is nothing to model. The model records that such a request panics.
- `Cluster::broadcast`, `send`, `receive` and `send_bufferred_messages` are `todo!()` over an async transport, so they are not modelled. The channel the cluster owns is an opaque value that the cluster only stores.
- The cluster's message buffer is kept only as the number of buffered envelopes. No code shown reads or fills it, so their contents are not modelled.
- The `StateMachine` field of `Replica` and the `Message`/`Batch` and `ClientOperation` types are interfaces or bare types with no logic. `ClientOperation` is kept only as the value type of the client table.
- Storage (`SledStorage`, snapshots and their error conversions) is file I/O over external libraries and is not part of this model.
- `ReplicaIdentity` is an empty struct in the code, so all identities compare equal and `bootstrap` could never succeed. The model uses an abstract identity type with a strict total order instead.
- `u64` counters are `nat`. A wrap-around of `offset + len` in `current_size_with_offset` is not modelled.
- `Default for MemoryLog` just calls `new`, so it has no separate member.
- Replica state fields (`commit_num`, `view_num`) and the commit-number invariant have no code that reads or changes them, so nothing is stated about them.
