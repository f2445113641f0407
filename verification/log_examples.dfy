/** Worked examples of the in-memory log, each a lemma about the model: the
    two unit tests of the log (the same calls, the same expected answers), the
    panic of `get` on a fresh log, and an index that `trim_end` frees being
    filled again by `push`. Every read goes through `get` as the code writes
    it, except the one that contrasts it with the corrected bound. */
module LogExamples {
  import opened Wrappers
  import opened OperationLog

  /** `get_retrieves_correct_element`. */
  lemma GetRetrievesCorrectElement()
    ensures var log := Run(New(), Pushes([347, 11, 45, 125]));
            && log.Ok?
            && GetAsWritten(log.value, 0) == Completed(Ok(347))
            && GetAsWritten(log.value, 2) == Completed(Ok(45))
            && GetAsWritten(log.value, CurrentSizeWithOffset(log.value) - 1) == Completed(Ok(125))
            && var trimmed := TrimFront(log.value, 2);
            && trimmed.Ok?
            && GetAsWritten(trimmed.value, CurrentSizeWithOffset(trimmed.value) - 1) == Completed(Ok(125))
            && var grown := Run(trimmed.value, Pushes([2233, 111]));
            && grown.Ok?
            && GetAsWritten(grown.value, 4) == Completed(Ok(2233))
            && GetAsWritten(grown.value, CurrentSizeWithOffset(grown.value) - 1) == Completed(Ok(111))
            && var cut := TrimEnd(grown.value, 4);
            && cut.Ok?
            && GetAsWritten(cut.value, CurrentSizeWithOffset(cut.value) - 1) == Completed(Ok(125))
  {
    PushesAreContiguous(New(), [347, 11, 45, 125]);
    var log := Run(New(), Pushes([347, 11, 45, 125])).value;
    var trimmed := TrimFront(log, 2).value;
    PushesAreContiguous(trimmed, [2233, 111]);
  }

  /** `size_is_correct_when_pushed_and_trimmed`. */
  lemma SizeIsCorrectWhenPushedAndTrimmed()
    ensures var log := Run(New(), Pushes([12, 12]));
            && log.Ok?
            && CurrentSize(log.value) == 2 && CurrentSizeWithOffset(log.value) == 2
            && var more := Run(log.value, Pushes([12, 12]));
            && more.Ok?
            && CurrentSize(more.value) == 4 && CurrentSizeWithOffset(more.value) == 4
            && var trimmed := TrimFront(more.value, 2);
            && trimmed.Ok?
            && CurrentSize(trimmed.value) == 2 && CurrentSizeWithOffset(trimmed.value) == 4
            && var pushed := Push(trimmed.value, 12);
            && CurrentSize(pushed.value) == 3 && CurrentSizeWithOffset(pushed.value) == 5
            && var cut := TrimEnd(pushed.value, 3);
            && cut.Ok?
            && CurrentSize(cut.value) == 1 && CurrentSizeWithOffset(cut.value) == 3
  {
    PushesAreContiguous(New<int>(), [12, 12]);
    var log := Run(New<int>(), Pushes([12, 12])).value;
    assert CurrentOffset(log) == 0 && CurrentSizeWithOffset(log) == 2;
    PushesAreContiguous(log, [12, 12]);
    var more := Run(log, Pushes([12, 12])).value;
    assert CurrentOffset(more) == 0 && CurrentSizeWithOffset(more) == 4;
    var trimmed := TrimFront(more, 2).value;
    assert CurrentOffset(trimmed) == 2 && CurrentSizeWithOffset(trimmed) == 4;
    var pushed := Push(trimmed, 12).value;
    assert CurrentOffset(pushed) == 2 && CurrentSizeWithOffset(pushed) == 5;
  }

  /** The defect of `get` on the smallest input: on a fresh log, `get(0)`
      passes the guard and panics, where the intended check answers
      `InvalidIndex`. */
  lemma GetOnFreshLogPanics()
    ensures GetAsWritten(New<int>(), 0) == Panicked
    ensures Get(New<int>(), 0) == Err(InvalidIndex)
  {
  }

  /** A monotone offset protects only front-trimmed indices: an index removed
      by `trim_end` is filled again by the next `push`. */
  lemma TrimEndThenPushRefills()
    ensures var log := Run(MemoryLog(0, [10, 20, 30]), [TrimEndCall(1), PushCall(99)]);
            && log.Ok?
            && GetAsWritten(MemoryLog(0, [10, 20, 30]), 1) == Completed(Ok(20))
            && GetAsWritten(log.value, 1) == Completed(Ok(99))
  {
    var cut := TrimEnd(MemoryLog(0, [10, 20, 30]), 1).value;
    assert Run(MemoryLog(0, [10, 20, 30]), [TrimEndCall(1), PushCall(99)])
        == Run(cut, [PushCall(99)]);
    assert Get(Push(cut, 99).value, 1) == Ok(99);
  }
}
