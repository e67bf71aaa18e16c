/**
 * The auto-delete scenario of the library's instrumented tests, on the
 * table: three objects of one MiB each under a budget of two MiB, with the
 * first object read between the second and the third `put`. The four
 * operations happen at the times `t1` to `t4` of the device clock.
 */
module Scenarios {
  import opened Options
  import opened Table

  const MiB: int := 1048576
  const Budget: int := 2 * MiB

  /** The three keys of the scenario are different strings. */
  lemma KeysDiffer()
    ensures "object1" != "object2" && "object1" != "object3" && "object2" != "object3"
  {
    assert "object1"[6] == '1' && "object2"[6] == '2' && "object3"[6] == '3';
  }

  /** The table after `put("object1")` at time `t1`. */
  function AfterFirst(t1: int): Rows {
    map[1 := Row("object1", MiB, true, t1, t1)]
  }

  /** The table after `put("object2")` at time `t2`. */
  function AfterSecond(t1: int, t2: int): Rows {
    map[1 := Row("object1", MiB, true, t1, t1), 2 := Row("object2", MiB, true, t2, t2)]
  }

  /** The table after `getAsFile("object1")` at time `t3`. */
  function AfterRead(t1: int, t2: int, t3: int): Rows {
    map[1 := Row("object1", MiB, true, t3, t1), 2 := Row("object2", MiB, true, t2, t2)]
  }

  /** The table after `put("object3")` at time `t4`, before eviction. */
  function AfterThird(t1: int, t2: int, t3: int, t4: int): Rows {
    map[1 := Row("object1", MiB, true, t3, t1), 2 := Row("object2", MiB, true, t2, t2), 3 := Row("object3", MiB, true, t4, t4)]
  }

  /** The first `put` on the empty table takes ROWID 1, which `prepareKey` answers with. */
  lemma FirstPut(t1: int)
    ensures TableOk(map[])
    ensures MaxId(Prepare(map[], "object1", t1)) == 1
    ensures Finalize(Prepare(map[], "object1", t1), 1, MiB) == AfterFirst(t1)
  {
    assert UpsertSlot(map[], "object1") == 1;
  }

  /** The second key is new, so it takes ROWID 2, the answer of `prepareKey`. */
  lemma SecondPut(t1: int, t2: int)
    ensures TableOk(AfterFirst(t1))
    ensures MaxId(Prepare(AfterFirst(t1), "object2", t2)) == 2
    ensures Finalize(Prepare(AfterFirst(t1), "object2", t2), 2, MiB) == AfterSecond(t1, t2)
  {
    var r := AfterFirst(t1);
    KeysDiffer();
    assert UpsertSlot(r, "object2") !in r;
    assert MaxId(r) == 1;
  }

  /** Two MiB of finalized rows do not exceed the two MiB budget, so the second `put` evicts nothing. */
  lemma SecondPutWithinBudget(t1: int, t2: int)
    ensures TotalSize(AfterSecond(t1, t2)) == Budget
  {
    var r := AfterSecond(t1, t2);
    assert FinalizedIds(r) == {1, 2};
    SizeOfRemove(r, {1, 2}, 1);
    assert {1, 2} - {1} == {2};
    SizeOfRemove(r, {2}, 2);
    assert {2} - {2} == {};
  }

  /** Reading the first object finds ROWID 1 and moves its `last_used` to `t3`. */
  lemma ReadFirst(t1: int, t2: int, t3: int)
    ensures TableOk(AfterSecond(t1, t2))
    ensures LookupFinalized(AfterSecond(t1, t2), "object1") == Some(1)
    ensures Touch(AfterSecond(t1, t2), "object1", t3) == AfterRead(t1, t2, t3)
  {
    var r := AfterSecond(t1, t2);
    KeysDiffer();
    assert 1 in r && r[1].clientKey == "object1";
  }

  /** The third key is new, so it takes ROWID 3, the answer of `prepareKey`. */
  lemma ThirdPut(t1: int, t2: int, t3: int, t4: int)
    ensures TableOk(AfterRead(t1, t2, t3))
    ensures MaxId(Prepare(AfterRead(t1, t2, t3), "object3", t4)) == 3
    ensures Finalize(Prepare(AfterRead(t1, t2, t3), "object3", t4), 3, MiB) == AfterThird(t1, t2, t3, t4)
  {
    var r := AfterRead(t1, t2, t3);
    KeysDiffer();
    assert UpsertSlot(r, "object3") !in r;
    assert MaxId(r) == 2;
  }

  /** Three MiB of finalized rows exceed the two MiB budget, so `put` evicts. */
  lemma ThirdPutExceedsBudget(t1: int, t2: int, t3: int, t4: int)
    ensures TotalSize(AfterThird(t1, t2, t3, t4)) == 3 * MiB
  {
    var r := AfterThird(t1, t2, t3, t4);
    assert FinalizedIds(r) == {1, 2, 3};
    SizeOfRemove(r, {1, 2, 3}, 1);
    assert {1, 2, 3} - {1} == {2, 3};
    SizeOfRemove(r, {2, 3}, 2);
    assert {2, 3} - {2} == {3};
    SizeOfRemove(r, {3}, 3);
    assert {3} - {3} == {};
  }

  /** With the times strictly increasing, no two rows of the final table share a key or a `last_used`. */
  lemma ThirdIsWellFormed(t1: int, t2: int, t3: int, t4: int)
    requires t2 < t3 < t4
    ensures TableOk(AfterThird(t1, t2, t3, t4))
    ensures var r := AfterThird(t1, t2, t3, t4);
      forall i, j :: i in r && j in r && i != j ==> r[i].lastUsed != r[j].lastUsed
  {
    KeysDiffer();
  }

  /** The rows used no earlier than each row's `last_used`, and their sizes. */
  lemma NewerRowsOfThird(t1: int, t2: int, t3: int, t4: int)
    requires t2 < t3 < t4
    ensures var r := AfterThird(t1, t2, t3, t4);
      UsedSince(r, t4) == {3} && SizeOf(r, {3}) == MiB
    ensures var r := AfterThird(t1, t2, t3, t4);
      UsedSince(r, t3) == {1, 3} && SizeOf(r, {1, 3}) == 2 * MiB
    ensures var r := AfterThird(t1, t2, t3, t4);
      UsedSince(r, t2) == {1, 2, 3} && SizeOf(r, {1, 2, 3}) == 3 * MiB
  {
    var rows := AfterThird(t1, t2, t3, t4);
    SizeOfRemove(rows, {3}, 3);
    assert {3} - {3} == {};
    SizeOfRemove(rows, {1, 3}, 1);
    assert {1, 3} - {1} == {3};
    SizeOfRemove(rows, {1, 2, 3}, 2);
    assert {1, 2, 3} - {2} == {1, 3};
  }

  /**
   * Whatever walk the database takes, eviction chooses exactly the second
   * object: it is the least recently used, and the two newer rows already
   * fill the budget. This needs the read and the third `put` to fall on
   * later milliseconds than the second `put`.
   */
  lemma AutoDeleteEvictsSecond(t1: int, t2: int, t3: int, t4: int, order: seq<int>)
    requires t2 < t3 < t4
    requires IsLastUsedOrder(AfterThird(t1, t2, t3, t4), order)
    ensures Elements(OverBudget(AfterThird(t1, t2, t3, t4), order, Budget)) == {2}
  {
    var rows := AfterThird(t1, t2, t3, t4);
    ThirdIsWellFormed(t1, t2, t3, t4);
    NewerRowsOfThird(t1, t2, t3, t4);
    EvictedIffNewerRowsExceed(rows, order, Budget, 1);
    EvictedIffNewerRowsExceed(rows, order, Budget, 2);
    EvictedIffNewerRowsExceed(rows, order, Budget, 3);
    ChosenWithinTable(rows, order, Budget);
  }
}
