/** The in-memory operation log of a replica (`MemoryLog<T>` implementing the
    `Log<T>` trait).

    Entries are addressed by a global index: the entry at local position `k` of
    `data` has global index `offset + k`. Trimming the front drops a prefix and
    advances `offset`, so the global index of a surviving entry never changes.
    The Rust `u64` counters are modelled as `nat`. */
module OperationLog {
  import opened Wrappers

  /** The only error the log reports. */
  datatype LogError = InvalidIndex

  datatype MemoryLog<T> = MemoryLog(offset: nat, data: seq<T>)

  /** A fresh log: no entries, offset zero. */
  function New<T>(): (log: MemoryLog<T>)
    ensures CurrentSize(log) == 0 && CurrentOffset(log) == 0
    ensures forall i: nat :: Get(log, i) == Err(InvalidIndex)
  {
    MemoryLog(0, [])
  }

  /** Number of entries currently held. */
  function CurrentSize<T>(log: MemoryLog<T>): nat {
    |log.data|
  }

  /** Global index of the oldest entry still held. */
  function CurrentOffset<T>(log: MemoryLog<T>): nat {
    log.offset
  }

  /** Global index the next pushed entry receives. */
  function CurrentSizeWithOffset<T>(log: MemoryLog<T>): (n: nat)
    ensures n == CurrentOffset(log) + CurrentSize(log)
  {
    log.offset + |log.data|
  }

  /** `get` with the `>=` bound that `trim_front` and `trim_end` use
      (togo-vr/src/log/memory.rs:55 and :72): global indices in
      `[offset, size_with_offset)` are readable, every other index is rejected
      with `InvalidIndex`. The code as written is `GetAsWritten`. */
  function Get<T>(log: MemoryLog<T>, index: nat): (r: Result<T, LogError>)
    ensures r.Ok? <==> CurrentOffset(log) <= index < CurrentSizeWithOffset(log)
    ensures r.Ok? ==> r.value == log.data[index - CurrentOffset(log)]
  {
    if index < log.offset || index >= CurrentSizeWithOffset(log) then Err(InvalidIndex)
    else Ok(log.data[index - log.offset])
  }

  /** `size_with_offset` is the end of the readable window: every index from
      the offset up to it is readable, it itself is not, and neither is any
      index beyond it. */
  lemma SizeWithOffsetEndsWindow<T>(log: MemoryLog<T>)
    ensures Get(log, CurrentSizeWithOffset(log)) == Err(InvalidIndex)
    ensures forall i: nat :: CurrentOffset(log) <= i < CurrentSizeWithOffset(log) ==> Get(log, i).Ok?
    ensures forall i: nat :: i >= CurrentSizeWithOffset(log) ==> Get(log, i) == Err(InvalidIndex)
  {
  }

  /** `get` exactly as the code does it: the guard rejects only indices
      strictly above `size_with_offset`, so `index == size_with_offset` slips
      through and the `unwrap()` of the missing element panics. On every
      other index it agrees with `Get`. */
  function GetAsWritten<T>(log: MemoryLog<T>, index: nat): (r: Panicking<Result<T, LogError>>)
    ensures r.Panicked? <==> index == CurrentSizeWithOffset(log)
    ensures index != CurrentSizeWithOffset(log) ==> r == Completed(Get(log, index))
  {
    if index < log.offset || index > CurrentSizeWithOffset(log) then
      Completed(Err(InvalidIndex))
    else
      var local := index - log.offset;
      if local < |log.data| then Completed(Ok(log.data[local])) else Panicked
  }

  /** `push` appends at the next contiguous global index and never fails;
      everything readable before stays readable with the same value. */
  function Push<T>(log: MemoryLog<T>, value: T): (r: Result<MemoryLog<T>, LogError>)
    ensures r.Ok?
    ensures CurrentOffset(r.value) == CurrentOffset(log)
    ensures CurrentSize(r.value) == CurrentSize(log) + 1
    ensures CurrentSizeWithOffset(r.value) == CurrentSizeWithOffset(log) + 1
    ensures Get(r.value, CurrentSizeWithOffset(log)) == Ok(value)
    ensures forall i: nat :: i != CurrentSizeWithOffset(log) ==> Get(r.value, i) == Get(log, i)
  {
    Ok(MemoryLog(log.offset, log.data + [value]))
  }

  /** `trim_front(first)` discards the entries below global index `first`.
      It fails when `first` is not a readable index (so always on an empty
      log), is a no-op when `first` is the current offset, and otherwise keeps
      every entry at or above `first` under its old global index. */
  function TrimFront<T>(log: MemoryLog<T>, first: nat): (r: Result<MemoryLog<T>, LogError>)
    ensures r.Err? <==> first < CurrentOffset(log) || first >= CurrentSizeWithOffset(log)
    ensures CurrentSize(log) == 0 ==> r.Err?
    ensures first == CurrentOffset(log) && CurrentSize(log) > 0 ==> r == Ok(log)
    ensures r.Ok? ==> CurrentOffset(r.value) == first
    ensures r.Ok? ==> CurrentSizeWithOffset(r.value) == CurrentSizeWithOffset(log)
    ensures r.Ok? ==> forall i: nat :: i >= first ==> Get(r.value, i) == Get(log, i)
    ensures r.Ok? ==> forall i: nat :: i < first ==> Get(r.value, i) == Err(InvalidIndex)
  {
    if first < log.offset || first >= CurrentSizeWithOffset(log) then
      Err(InvalidIndex)
    else if first == log.offset then
      Ok(log)
    else
      Ok(MemoryLog(first, log.data[first - log.offset..]))
  }

  /** `trim_end(last)` discards the entries at and above global index `last`.
      It fails under the same bounds as `trim_front` (so always on an empty
      log and never removes nothing); otherwise the offset stays, the log ends
      at `last`, and every entry below `last` keeps its value. */
  function TrimEnd<T>(log: MemoryLog<T>, last: nat): (r: Result<MemoryLog<T>, LogError>)
    ensures r.Err? <==> last < CurrentOffset(log) || last >= CurrentSizeWithOffset(log)
    ensures CurrentSize(log) == 0 ==> r.Err?
    ensures r.Ok? ==> CurrentOffset(r.value) == CurrentOffset(log)
    ensures r.Ok? ==> CurrentSizeWithOffset(r.value) == last
    ensures r.Ok? ==> forall i: nat :: i < last ==> Get(r.value, i) == Get(log, i)
    ensures r.Ok? ==> forall i: nat :: i >= last ==> Get(r.value, i) == Err(InvalidIndex)
  {
    if last < log.offset || last >= CurrentSizeWithOffset(log) then
      Err(InvalidIndex)
    else
      Ok(MemoryLog(log.offset, log.data[..last - log.offset]))
  }

  /** A log is determined by its offset, its end and what `Get` answers: two
      logs that agree on these are the same value. This is what makes the
      `Get`-based contracts of `Push`, `TrimFront` and `TrimEnd` complete. */
  lemma {:induction false} ObservationallyEqual<T>(a: MemoryLog<T>, b: MemoryLog<T>)
    requires CurrentOffset(a) == CurrentOffset(b)
    requires CurrentSizeWithOffset(a) == CurrentSizeWithOffset(b)
    requires forall i: nat :: Get(a, i) == Get(b, i)
    ensures a == b
  {
    assert |a.data| == |b.data|;
    forall k | 0 <= k < |a.data|
      ensures a.data[k] == b.data[k]
    {
      var i: nat := a.offset + k;
      assert Get(a, i) == Ok(a.data[k]);
      assert Get(b, i) == Ok(b.data[k]);
    }
  }

  /** One call through the `&mut self` interface: the log after the call and
      what the call returned. */
  datatype Call<T> = PushCall(value: T) | TrimFrontCall(first: nat) | TrimEndCall(last: nat)

  datatype Step<T> = Step(log: MemoryLog<T>, result: Result<(), LogError>)

  /** Performs one call in place. A failing call leaves the log untouched,
      exactly as the early `return Err(...)` of the code does. */
  function Apply<T>(log: MemoryLog<T>, call: Call<T>): (s: Step<T>)
    ensures s.result.Err? ==> s.log == log
    ensures call.PushCall? ==> s.result.Ok?
    ensures CurrentOffset(log) <= CurrentOffset(s.log)
    ensures !call.TrimEndCall? ==> CurrentSizeWithOffset(log) <= CurrentSizeWithOffset(s.log)
  {
    var r := match call
      case PushCall(v) => Push(log, v)
      case TrimFrontCall(first) => TrimFront(log, first)
      case TrimEndCall(last) => TrimEnd(log, last);
    if r.Ok? then Step(r.value, Ok(())) else Step(log, Err(r.error))
  }

  /** Performs calls in order, each result `unwrap()`ed: the first failing
      call aborts the run with its error. Whatever the calls, the offset
      never moves backwards, so no index below the starting offset becomes
      readable again. (An index removed by `trim_end` can be filled again by
      a later `push`.) */
  function Run<T>(log: MemoryLog<T>, calls: seq<Call<T>>): (r: Result<MemoryLog<T>, LogError>)
    ensures r.Ok? ==> CurrentOffset(log) <= CurrentOffset(r.value)
    ensures r.Ok? ==> forall i: nat :: i < CurrentOffset(log) ==> Get(r.value, i) == Err(InvalidIndex)
    decreases |calls|
  {
    if calls == [] then Ok(log)
    else
      var s := Apply(log, calls[0]);
      if s.result.Err? then Err(s.result.error) else Run(s.log, calls[1..])
  }

  /** The calls that push `values` one after another. */
  function Pushes<T>(values: seq<T>): (calls: seq<Call<T>>)
    ensures |calls| == |values|
    ensures forall k :: 0 <= k < |calls| ==> calls[k] == PushCall(values[k])
  {
    if values == [] then [] else [PushCall(values[0])] + Pushes(values[1..])
  }

  /** Log contiguity: pushing `values` never fails, keeps the offset, gives
      the k-th value the global index `size_with_offset + k`, and leaves every
      older entry as it was. */
  lemma {:induction false} PushesAreContiguous<T>(log: MemoryLog<T>, values: seq<T>)
    ensures Run(log, Pushes(values)).Ok?
    ensures CurrentOffset(Run(log, Pushes(values)).value) == CurrentOffset(log)
    ensures CurrentSizeWithOffset(Run(log, Pushes(values)).value) == CurrentSizeWithOffset(log) + |values|
    ensures forall k :: 0 <= k < |values| ==>
              Get(Run(log, Pushes(values)).value, CurrentSizeWithOffset(log) + k) == Ok(values[k])
    ensures forall i: nat :: i < CurrentSizeWithOffset(log) ==>
              Get(Run(log, Pushes(values)).value, i) == Get(log, i)
    decreases |values|
  {
    if values != [] {
      var next := Push(log, values[0]).value;
      var calls := Pushes(values);
      assert calls[1..] == Pushes(values[1..]);
      assert Run(log, calls) == Run(next, Pushes(values[1..]));
      PushesAreContiguous(next, values[1..]);
      var final := Run(log, calls).value;
      var base := CurrentSizeWithOffset(log);
      forall k | 0 <= k < |values|
        ensures Get(final, base + k) == Ok(values[k])
      {
        if k > 0 {
          assert Get(final, CurrentSizeWithOffset(next) + (k - 1)) == Ok(values[1..][k - 1]);
        } else {
          assert Get(final, base) == Get(next, base);
        }
      }
    }
  }
}
