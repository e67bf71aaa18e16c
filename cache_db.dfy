/**
 * The metadata store `CacheDb`: one SQLite table, one statement per method.
 * Statements that change the table always take effect; every read goes
 * through the query helper, which answers with a default value when the read
 * throws or its parse yields null.
 */
module Db {
  import opened Options
  import opened Table
  import opened SqlText

  /** What a read through the query helper produced: an exception, or its parse's value (`None` for null). */
  datatype QueryOutcome<T> = Threw | Parsed(value: Option<T>)

  /** The query helper's rule: the parsed value when there is one, the default otherwise. */
  function Query<T>(outcome: QueryOutcome<T>, default: T): (r: T)
    ensures outcome.Parsed? && outcome.value.Some? ==> r == outcome.value.value
    ensures outcome.Threw? || outcome.value.None? ==> r == default
  {
    match outcome
    case Parsed(Some(v)) => v
    case _ => default
  }

  /**
   * Running a statement of the `DELETE from cache WHERE ROWID in (…)` shape:
   * the rows whose ROWID the statement lists go; other text changes nothing.
   */
  function ExecuteDelete(rows: Rows, sql: string): (r: Rows)
    ensures DeletedIds(sql).Some? ==> r.Keys == rows.Keys - Elements(DeletedIds(sql).value)
    ensures forall id :: id in r ==> id in rows && r[id] == rows[id]
  {
    match DeletedIds(sql)
    case Some(ids) => rows - Elements(ids)
    case None => rows
  }

  /** The statement `deleteKeys` builds removes exactly the listed rows and keeps the others as they were. */
  lemma DeleteSqlRemovesListed(rows: Rows, ids: seq<int>)
    ensures ExecuteDelete(rows, DeleteSql(ids)) == rows - Elements(ids)
  {
    DeleteSqlRoundTrip(ids);
  }

  /** Running the same `deleteKeys` statement twice is the same as running it once. */
  lemma DeleteIdempotent(rows: Rows, ids: seq<int>)
    ensures var sql := DeleteSql(ids);
      ExecuteDelete(ExecuteDelete(rows, sql), sql) == ExecuteDelete(rows, sql)
  {
    DeleteSqlRemovesListed(rows, ids);
    DeleteSqlRemovesListed(rows - Elements(ids), ids);
  }

  /**
   * `prepareKey` answers with the largest ROWID. That is the key's own row
   * exactly when the key was new or already held the largest ROWID.
   */
  lemma PrepareAnswerIsSlotIff(rows: Rows, key: string, now: int)
    requires TableOk(rows)
    ensures MaxId(Prepare(rows, key, now)) == UpsertSlot(rows, key)
      <==> UpsertSlot(rows, key) !in rows || UpsertSlot(rows, key) == MaxId(rows)
  {
  }

  /** Two keys: preparing the first again answers with the second key's ROWID. */
  lemma PrepareAnswerMissesExistingKey()
    ensures var rows := map[1 := Row("a", 5, true, 1, 1), 2 := Row("b", 7, true, 2, 2)];
      && TableOk(rows)
      && UpsertSlot(rows, "a") == 1
      && MaxId(Prepare(rows, "a", 3)) == 2
  {
    var rows := map[1 := Row("a", 5, true, 1, 1), 2 := Row("b", 7, true, 2, 2)];
    assert rows[1].clientKey == "a" && rows[2].clientKey == "b";
    assert UpsertSlot(rows, "a") in rows;
    assert MaxId(rows) == 2;
  }

  /** The sum of finalized sizes after `finalizeKey` on an unfinalized row grows by the recorded size. */
  lemma TotalSizeAfterFinalize(rows: Rows, id: int, len: int)
    requires TableOk(rows) && 0 <= len && id in rows && !rows[id].finalized
    ensures TotalSize(Finalize(rows, id, len)) == TotalSize(rows) + len
  {
    var r := Finalize(rows, id, len);
    assert FinalizedIds(r) == FinalizedIds(rows) + {id};
    SizeOfRemove(r, FinalizedIds(r), id);
    assert FinalizedIds(r) - {id} == FinalizedIds(rows);
    SizeOfAgree(r, rows, FinalizedIds(rows));
  }

  /** The upsert of `prepareKey` takes the key's old row, if any, out of the finalized sum. */
  lemma TotalSizeAfterPrepare(rows: Rows, key: string, now: int)
    requires TableOk(rows)
    ensures var slot := UpsertSlot(rows, key);
      TotalSize(Prepare(rows, key, now))
        == TotalSize(rows) - (if slot in rows && rows[slot].finalized then rows[slot].fileSize else 0)
  {
    var slot := UpsertSlot(rows, key);
    var r := Prepare(rows, key, now);
    var was := FinalizedIds(rows);
    assert FinalizedIds(r) == was - {slot};
    SizeOfAgree(r, rows, was - {slot});
    if slot in was {
      SizeOfRemove(rows, was, slot);
    } else {
      assert was - {slot} == was;
    }
  }

  class CacheDb {
    /** The `cache` table, keyed by ROWID. */
    var rows: Rows
    /** Whether reads of this database throw; statements that write always succeed. */
    const readFails: bool

    ghost predicate Valid()
      reads this
    {
      TableOk(rows)
    }

    constructor (persisted: Rows, readFails: bool)
      requires TableOk(persisted)
      ensures Valid() && rows == persisted && this.readFails == readFails
    {
      rows := persisted;
      this.readFails := readFails;
    }

    /** What a read of a parsed value gives on this database. */
    function Read<T>(v: Option<T>): QueryOutcome<T> {
      if readFails then Threw else Parsed(v)
    }

    /**
     * `prepareKey`: the upsert, then `select max(ROWID)`, which after the
     * upsert is never null; -1 when the read throws.
     */
    method PrepareKey(key: string, now: int) returns (k: int)
      requires Valid()
      modifies this
      ensures Valid() && rows == Prepare(old(rows), key, now)
      ensures readFails ==> k == -1
      ensures !readFails ==> k == MaxId(rows) && k in rows
    {
      rows := Prepare(rows, key, now);
      k := Query(Read(Some(MaxId(rows))), -1);
    }

    /** `prepareKey` as its callers need it: the ROWID of the key's own row, -1 when the read throws. */
    method PrepareSlot(key: string, now: int) returns (k: int)
      requires Valid()
      modifies this
      ensures Valid() && rows == Prepare(old(rows), key, now)
      ensures readFails ==> k == -1
      ensures !readFails ==> k == UpsertSlot(old(rows), key) && k in rows && rows[k].clientKey == key
    {
      rows := Prepare(rows, key, now);
      k := Query(Read(FindKey(rows, key)), -1);
    }

    /** `finalizeKey`: row `id`, if there is one, is finalized with size `len`. */
    method FinalizeKey(id: int, len: int)
      requires Valid() && 0 <= len
      modifies this
      ensures Valid() && rows == Finalize(old(rows), id, len)
    {
      rows := Finalize(rows, id, len);
    }

    /**
     * `getKey`: the ROWID of the key's finalized row, or -1; only when it is
     * found does the key's `last_used` become `now`.
     */
    method GetKey(key: string, now: int) returns (k: int)
      requires Valid()
      modifies this
      ensures Valid()
      ensures k != -1 <==> !readFails && LookupFinalized(old(rows), key).Some?
      ensures k != -1 ==> k == LookupFinalized(old(rows), key).value
      ensures rows == if k != -1 then Touch(old(rows), key, now) else old(rows)
    {
      k := Query(Read(LookupFinalized(rows, key)), -1);
      if k != -1 {
        rows := Touch(rows, key, now);
      }
    }

    /**
     * `getCorruptedFiles`: the ROWIDs of the unfinalized rows, each once, in
     * whatever order the cursor yields them; empty when the read throws.
     */
    method GetCorruptedFiles() returns (ids: seq<int>)
      requires Valid()
      ensures readFails ==> ids == []
      ensures !readFails ==> Distinct(ids) && Elements(ids) == UnfinalizedIds(rows)
    {
      ids := [];
      if readFails {
        return;
      }
      var pending := UnfinalizedIds(rows);
      while pending != {}
        invariant Distinct(ids)
        invariant Elements(ids) + pending == UnfinalizedIds(rows)
        invariant Elements(ids) !! pending
        decreases pending
      {
        NonEmptyHasElement(pending);
        var id :| id in pending;
        assert id !in Elements(ids);
        ids := ids + [id];
        pending := pending - {id};
      }
    }

    /**
     * The statement of `deleteKeys`, built with a comma before every ROWID but
     * the first.
     */
    static method BuildDeleteSql(ids: seq<int>) returns (sql: string)
      ensures sql == DeleteSql(ids)
    {
      var text := DeletePrefix;
      var first := true;
      var i := 0;
      while i < |ids|
        invariant 0 <= i <= |ids|
        invariant first <==> i == 0
        invariant text == DeletePrefix + Join(ids[..i])
      {
        ghost var before := text;
        if !first {
          text := text + ",";
        } else {
          first := false;
        }
        text := text + Decimal(ids[i]);
        assert text == (if i == 0 then before else before + ",") + Decimal(ids[i]);
        JoinStep(DeletePrefix, ids, i);
        i := i + 1;
      }
      WholePrefix(ids);
      assert text == DeletePrefix + Join(ids);
      sql := text + DeleteSuffix;
    }

    /** `deleteKeys`: builds the `DELETE` statement and runs it. */
    method DeleteKeys(ids: seq<int>) returns (sql: string)
      requires Valid()
      modifies this
      ensures Valid() && sql == DeleteSql(ids)
      ensures rows == old(rows) - Elements(ids)
    {
      sql := BuildDeleteSql(ids);
      DeleteSqlRemovesListed(rows, ids);
      RemoveKeepsTableOk(rows, Elements(ids));
      rows := ExecuteDelete(rows, sql);
    }

    /** `getTotalSize`: the sum of finalized sizes, never negative; -1 when the read throws. */
    function GetTotalSize(): (t: int)
      requires Valid()
      reads this
      ensures readFails ==> t == -1
      ensures !readFails ==> t == TotalSize(rows) && 0 <= t
    {
      TotalSizeNonNegative(rows);
      Query(Read(Some(TotalSize(rows))), -1)
    }

    /**
     * `getKeysToDelete`: walks the rows in an order of `last_used`
     * descending that the database picks, and collects every ROWID at which
     * the running sum of `file_size` exceeds `maxSize`; empty when the read
     * throws. `order` is the walk that was taken.
     */
    method GetKeysToDelete(maxSize: int) returns (ids: seq<int>, ghost order: seq<int>)
      requires Valid()
      ensures IsLastUsedOrder(rows, order)
      ensures ids == if readFails then [] else OverBudget(rows, order, maxSize)
    {
      LastUsedOrderExists(rows);
      var cursor: seq<int> :| IsLastUsedOrder(rows, cursor);
      order := cursor;
      ids := [];
      if readFails {
        return;
      }
      var count := 0;
      var i := 0;
      while i < |cursor|
        invariant 0 <= i <= |cursor|
        invariant count == SeqSize(rows, cursor[..i])
        invariant ids == OverBudget(rows, cursor[..i], maxSize)
      {
        assert cursor[..i + 1][..i] == cursor[..i];
        count := count + Weight(rows, cursor[i]);
        if count > maxSize {
          ids := ids + [cursor[i]];
        }
        i := i + 1;
      }
      assert cursor[..i] == cursor;
    }
  }
}
