/**
 * The cache engine `VIF`. Every public operation runs as one task on a
 * single-thread executor, so each is modelled as one method that runs to
 * completion; what each executor job posts to the main thread is the method's result.
 * The current time, the stream's bytes and how the copy ended, which slot
 * files resist deletion, and the parser a caller supplies are parameters.
 */
module Engine {
  import opened Options
  import opened Table
  import opened SqlText
  import opened Blobs
  import opened Db

  /** Every finalized row records the length of its slot file. */
  predicate Agrees(rows: Rows, disk: Disk, dir: string) {
    forall id :: id in rows && rows[id].finalized ==> rows[id].fileSize == Length(disk, SlotFile(dir, id))
  }

  /** The upsert of `prepareKey` only unfinalizes, so the recorded sizes still match the files. */
  lemma PrepareKeepsAgreement(rows: Rows, disk: Disk, dir: string, key: string, now: int)
    requires TableOk(rows) && Agrees(rows, disk, dir)
    ensures Agrees(Prepare(rows, key, now), disk, dir)
  {
    var r := Prepare(rows, key, now);
    var slot := UpsertSlot(rows, key);
    forall id | id in r && r[id].finalized
      ensures r[id].fileSize == Length(disk, SlotFile(dir, id))
    {
      assert id != slot;
      assert r[id] == rows[id];
    }
  }

  /**
   * Writing slot `k`'s file and then finalizing row `k` at that file's
   * length keeps every recorded size matching its file.
   */
  lemma SaveAndFinalizeKeepAgreement(rows: Rows, disk: Disk, dir: string, k: int, stream: seq<byte>, w: WriteOutcome)
    requires TableOk(rows) && Agrees(rows, disk, dir)
    requires w.Copied? ==> w.count <= |stream|
    ensures var saved := Saved(disk, SlotFile(dir, k), stream, w);
      Agrees(Finalize(rows, k, Length(saved, SlotFile(dir, k))), saved, dir)
  {
    var f := SlotFile(dir, k);
    var saved := Saved(disk, f, stream, w);
    var r := Finalize(rows, k, Length(saved, f));
    forall id | id in r && r[id].finalized
      ensures r[id].fileSize == Length(saved, SlotFile(dir, id))
    {
      if id != k {
        SlotFileInjective(dir, id, k);
        assert r[id] == rows[id];
      }
    }
  }

  /** A ROWID whose slot file `removeKeys` is asked to delete, and may delete, is among those it cleans. */
  lemma DeletedCovers(disk: Disk, locked: set<FilePath>, dir: string, keys: seq<int>, id: int)
    ensures SlotFile(dir, id) in FilesOf(dir, keys) && SlotFile(dir, id) !in locked
      ==> id in Elements(Deleted(disk, locked, dir, keys))
  {
    DeletedElements(disk, locked, dir, keys);
    if SlotFile(dir, id) in FilesOf(dir, keys) && SlotFile(dir, id) !in locked {
      var k :| k in keys && SlotFile(dir, k) == SlotFile(dir, id);
      SlotFileInjective(dir, k, id);
    }
  }

  /**
   * `removeKeys` drops the rows whose files it deleted and the files it could
   * delete; every row that stays still matches its file.
   */
  lemma RemovalKeepsAgreement(rows: Rows, disk: Disk, locked: set<FilePath>, dir: string, keys: seq<int>)
    requires Agrees(rows, disk, dir)
    ensures Agrees(rows - Elements(Deleted(disk, locked, dir, keys)), disk - (FilesOf(dir, keys) - locked), dir)
  {
    var r := rows - Elements(Deleted(disk, locked, dir, keys));
    var d := disk - (FilesOf(dir, keys) - locked);
    forall id | id in r && r[id].finalized
      ensures r[id].fileSize == Length(d, SlotFile(dir, id))
    {
      DeletedCovers(disk, locked, dir, keys, id);
      assert SlotFile(dir, id) !in FilesOf(dir, keys) - locked;
    }
  }

  /**
   * When `prepareKey`'s answer is the key's own row, finalizing it moves the
   * sum of finalized sizes by the new length less the size the key held
   * before; `put` adds the new length only.
   */
  lemma PutTotalDrift(rows: Rows, key: string, now: int, len: int)
    requires TableOk(rows) && 0 <= len
    requires MaxId(Prepare(rows, key, now)) == UpsertSlot(rows, key)
    ensures var slot := UpsertSlot(rows, key);
      var replaced := if slot in rows && rows[slot].finalized then rows[slot].fileSize else 0;
      TotalSize(Finalize(Prepare(rows, key, now), slot, len)) == TotalSize(rows) - replaced + len
  {
    var p := Prepare(rows, key, now);
    TotalSizeAfterPrepare(rows, key, now);
    TotalSizeAfterFinalize(p, UpsertSlot(rows, key), len);
  }

  /**
   * `put` on the key's own row (the answer of `PrepareSlot`, and of
   * `prepareKey` exactly when `PrepareAnswerIsSlotIff` says so): a read
   * afterwards finds that row finalized, and its slot file holds the copied
   * prefix of the stream.
   */
  lemma PutThenGet(rows: Rows, disk: Disk, dir: string, key: string, now: int, stream: seq<byte>, w: WriteOutcome)
    requires TableOk(rows) && w.Copied? && w.count <= |stream|
    ensures var k := UpsertSlot(rows, key);
      var f := SlotFile(dir, k);
      var saved := Saved(disk, f, stream, w);
      var mid := Finalize(Prepare(rows, key, now), k, Length(saved, f));
      && LookupFinalized(mid, key) == Some(k)
      && f in saved && saved[f] == stream[..w.count]
  {
  }

  /**
   * When `prepareKey`'s answer is another key's row, `put` finalizes that
   * row at the new file's length and leaves the key itself with no
   * finalized row: a read after the `put` finds nothing.
   */
  lemma PutOverOlderKeyIsLost(rows: Rows, key: string, now: int, len: int)
    requires TableOk(rows) && 0 <= len
    requires UpsertSlot(rows, key) in rows && UpsertSlot(rows, key) != MaxId(rows)
    ensures var m := MaxId(rows);
      var mid := Finalize(Prepare(rows, key, now), m, len);
      && LookupFinalized(mid, key).None?
      && rows[m].clientKey != key
      && mid[m] == rows[m].(finalized := true, fileSize := len)
  {
    var slot := UpsertSlot(rows, key);
    var m := MaxId(rows);
    var p := Prepare(rows, key, now);
    assert p[slot] == Row(key, 0, false, now, now);
    assert p[m] == rows[m];
  }

  /**
   * `delete` starts with the upsert of `prepareKey`, so whatever rows it then
   * removes, the key has no finalized row afterwards: a read after `delete`
   * finds nothing.
   */
  lemma GetAfterDeleteFindsNothing(rows: Rows, key: string, now: int, gone: set<int>)
    requires TableOk(rows)
    ensures TableOk(Prepare(rows, key, now) - gone)
    ensures LookupFinalized(Prepare(rows, key, now) - gone, key).None?
  {
    var p := Prepare(rows, key, now);
    RemoveKeepsTableOk(p, gone);
  }

  /**
   * When `prepareKey`'s answer is another key's row, `delete` removes that
   * other key's row (if its file could be deleted) and keeps the key's own,
   * unfinalized, row.
   */
  lemma DeleteOfOlderKeyHitsAnother(rows: Rows, key: string, now: int)
    requires TableOk(rows)
    requires UpsertSlot(rows, key) in rows && UpsertSlot(rows, key) != MaxId(rows)
    ensures var m := MaxId(rows);
      var r := Prepare(rows, key, now) - {m};
      && rows[m].clientKey != key
      && UpsertSlot(rows, key) in r && !r[UpsertSlot(rows, key)].finalized
      && m !in r
  {
  }

  /** A file outside the removed ones is deletable on the reduced directory exactly when it was before. */
  lemma DeletableAfterRemoval(disk: Disk, locked: set<FilePath>, gone: set<FilePath>, f: FilePath)
    ensures Deletable(disk - (gone - locked), locked, f) == Deletable(disk, locked, f)
  {
  }

  /**
   * One step of `removeKeys` on the directory as the earlier steps left it:
   * deleting the next file, when that succeeds, removes one more slot file.
   */
  lemma RemoveStepFiles(disk: Disk, locked: set<FilePath>, gone: set<FilePath>, f: FilePath)
    ensures var before := disk - (gone - locked);
      (if Deletable(disk, locked, f) then before - {f} else before) == disk - ((gone + {f}) - locked)
  {
  }

  /** One step of `removeKeys` adds the next ROWID's file to those it tried. */
  lemma RemoveStepTried(dir: string, keys: seq<int>, i: int)
    requires 0 <= i < |keys|
    ensures FilesOf(dir, keys[..i + 1]) == FilesOf(dir, keys[..i]) + {SlotFile(dir, keys[i])}
  {
    assert keys[..i + 1] == keys[..i] + [keys[i]];
  }

  /** One step of `removeKeys` appends the next ROWID to the cleaned ones when its file is deletable. */
  lemma RemoveStepCleaned(disk: Disk, locked: set<FilePath>, dir: string, keys: seq<int>, i: int)
    requires 0 <= i < |keys|
    ensures Deleted(disk, locked, dir, keys[..i + 1])
      == Deleted(disk, locked, dir, keys[..i]) + (if Deletable(disk, locked, SlotFile(dir, keys[i])) then [keys[i]] else [])
  {
    assert keys[..i + 1][..i] == keys[..i];
  }

  /**
   * One whole step of `removeKeys`: trying the next ROWID's file on the
   * directory the earlier steps left moves both the cleaned ROWIDs and the
   * directory on by that ROWID.
   */
  lemma RemoveStep(disk: Disk, locked: set<FilePath>, dir: string, keys: seq<int>, i: int, files: Disk, cleaned: seq<int>)
    requires 0 <= i < |keys|
    requires cleaned == Deleted(disk, locked, dir, keys[..i])
    requires files == disk - (FilesOf(dir, keys[..i]) - locked)
    ensures var f := SlotFile(dir, keys[i]);
      (if Deletable(files, locked, f) then cleaned + [keys[i]] else cleaned) == Deleted(disk, locked, dir, keys[..i + 1])
    ensures var f := SlotFile(dir, keys[i]);
      (if Deletable(files, locked, f) then files - {f} else files) == disk - (FilesOf(dir, keys[..i + 1]) - locked)
  {
    var f := SlotFile(dir, keys[i]);
    RemoveStepTried(dir, keys, i);
    RemoveStepCleaned(disk, locked, dir, keys, i);
    DeletableAfterRemoval(disk, locked, FilesOf(dir, keys[..i]), f);
    RemoveStepFiles(disk, locked, FilesOf(dir, keys[..i]), f);
  }

  /** Deleting one slot's file and, when it is gone, its row keeps every other row matching its file. */
  lemma RemoveOneKeepsAgreement(rows: Rows, disk: Disk, dir: string, k: int)
    requires Agrees(rows, disk, dir)
    ensures Agrees(rows - {k}, disk - {SlotFile(dir, k)}, dir)
  {
    forall id | id in rows - {k} && rows[id].finalized
      ensures rows[id].fileSize == Length(disk - {SlotFile(dir, k)}, SlotFile(dir, id))
    {
      SlotFileInjective(dir, id, k);
    }
  }

  /** Working through any list of the unfinalized ROWIDs cleans and removes the same slots. */
  lemma RecoveryIsOrderFree(disk: Disk, locked: set<FilePath>, dir: string, keys: seq<int>, ids: set<int>)
    requires Elements(keys) == ids
    ensures Elements(Deleted(disk, locked, dir, keys)) == set id | id in ids && Deletable(disk, locked, SlotFile(dir, id))
    ensures FilesOf(dir, keys) == set id | id in ids :: SlotFile(dir, id)
  {
    DeletedElements(disk, locked, dir, keys);
    forall id | id in ids ensures id in keys {
      assert id in Elements(keys);
    }
  }

  /** What `ParserCallback.parse` did with the slot file's contents (`None` when the file does not exist). */
  datatype ParseResult<T> = Returned(value: Option<T>) | Raised

  /** The one callback `getAsObject` posts: `onResult` (with null as `None`) or `onError`. */
  datatype Delivery<T> = OnResult(result: Option<T>) | OnError

  class Vif {
    const db: CacheDb
    const maxSize: int
    /** What `context.getExternalCacheDir()` answers. */
    const defaultDir: string
    var cacheDir: Option<string>
    /** The engine's own running total, kept apart from the table. */
    var totalSize: int
    var files: Disk

    ghost predicate Valid()
      reads this, db
    {
      db.Valid()
    }

    /** The directory `toFile` uses: the configured one, else the default. */
    function Dir(): string
      reads this
    {
      cacheDir.GetOr(defaultDir)
    }

    /** Every finalized row records the length of its slot file. */
    ghost predicate Consistent()
      reads this, db
    {
      Agrees(db.rows, files, Dir())
    }

    /**
     * The constructor: opens the table and the directory as they were left,
     * then runs the recovery task.
     */
    constructor (persisted: Rows, disk: Disk, maxSize: int, defaultDir: string, cacheDir: Option<string>,
                 readFails: bool, locked: set<FilePath>)
      requires TableOk(persisted)
      ensures Valid() && fresh(db) && db.readFails == readFails
      ensures this.maxSize == maxSize && this.defaultDir == defaultDir
      ensures Dir() == cacheDir.GetOr(defaultDir)
      ensures totalSize == db.GetTotalSize()
      ensures readFails ==> db.rows == persisted && files == disk
      ensures !readFails ==> var dir := cacheDir.GetOr(defaultDir);
        && db.rows == persisted - (set id | id in UnfinalizedIds(persisted) && Deletable(disk, locked, SlotFile(dir, id)))
        && files == disk - ((set id | id in UnfinalizedIds(persisted) :: SlotFile(dir, id)) - locked)
      ensures Agrees(persisted, disk, cacheDir.GetOr(defaultDir)) ==> Consistent()
    {
      db := new CacheDb(persisted, readFails);
      this.maxSize := maxSize;
      this.defaultDir := defaultDir;
      this.cacheDir := cacheDir;
      totalSize := 0;
      files := disk;
      new;
      Recover(locked);
    }

    /**
     * The constructor's task: remove every unfinalized slot whose file can be
     * deleted, then take the total from the table.
     */
    method Recover(locked: set<FilePath>)
      requires Valid()
      modifies this, db
      ensures Valid() && Dir() == old(Dir())
      ensures totalSize == db.GetTotalSize()
      ensures db.readFails ==> db.rows == old(db.rows) && files == old(files)
      ensures !db.readFails ==>
        && db.rows == old(db.rows) - (set id | id in UnfinalizedIds(old(db.rows)) && Deletable(old(files), locked, SlotFile(Dir(), id)))
        && files == old(files) - ((set id | id in UnfinalizedIds(old(db.rows)) :: SlotFile(Dir(), id)) - locked)
      ensures old(Consistent()) ==> Consistent()
    {
      var corrupt := db.GetCorruptedFiles();
      if !db.readFails {
        RecoveryIsOrderFree(files, locked, Dir(), corrupt, UnfinalizedIds(db.rows));
      }
      var cleaned := RemoveKeys(corrupt, locked);
      totalSize := db.GetTotalSize();
    }

    /** `toFile`: slot `k`'s file in the cache directory, fixing the directory on first use. */
    method ToFile(k: int) returns (f: FilePath)
      modifies this`cacheDir
      ensures cacheDir == Some(old(Dir())) && f == SlotFile(old(Dir()), k)
    {
      if cacheDir.None? {
        cacheDir := Some(defaultDir);
      }
      f := SlotFile(cacheDir.value, k);
    }

    /** `deleteFile`: succeeds when the file is absent or could be removed. */
    method DeleteFile(f: FilePath, locked: set<FilePath>) returns (ok: bool)
      modifies this`files
      ensures ok == Deletable(old(files), locked, f)
      ensures files == if ok then old(files) - {f} else old(files)
    {
      ok := f !in files;
      if !ok {
        ok := f !in locked;
        if ok {
          files := files - {f};
        }
      }
    }

    /**
     * The loop of `removeKeys`: tries to delete the slot file of every ROWID
     * in turn and collects, in order, the ROWIDs whose file is gone.
     */
    method DeleteSlotFiles(keys: seq<int>, locked: set<FilePath>) returns (cleaned: seq<int>)
      modifies this`files, this`cacheDir
      ensures Dir() == old(Dir())
      ensures cleaned == Deleted(old(files), locked, old(Dir()), keys)
      ensures files == old(files) - (FilesOf(old(Dir()), keys) - locked)
    {
      ghost var dir, disk := Dir(), files;
      cleaned := [];
      var i := 0;
      while i < |keys|
        invariant 0 <= i <= |keys|
        invariant Dir() == dir
        invariant cleaned == Deleted(disk, locked, dir, keys[..i])
        invariant files == disk - (FilesOf(dir, keys[..i]) - locked)
      {
        var key := keys[i];
        RemoveStep(disk, locked, dir, keys, i, files, cleaned);
        var file := ToFile(key);
        var ok := DeleteFile(file, locked);
        if ok {
          cleaned := cleaned + [key];
        }
        i := i + 1;
      }
      WholePrefix(keys);
    }

    /**
     * `removeKeys`: tries to delete the slot file of every ROWID in turn and
     * then deletes the rows of exactly those whose file is gone; a ROWID whose
     * file resisted keeps its row and its file.
     */
    method RemoveKeys(keys: seq<int>, locked: set<FilePath>) returns (cleaned: seq<int>)
      requires Valid()
      modifies this, db
      ensures Valid() && Dir() == old(Dir()) && totalSize == old(totalSize)
      ensures cleaned == Deleted(old(files), locked, old(Dir()), keys)
      ensures db.rows == old(db.rows) - Elements(cleaned)
      ensures files == old(files) - (FilesOf(old(Dir()), keys) - locked)
      ensures old(Consistent()) ==> Consistent()
    {
      ghost var consistent, dir, disk, rows := Consistent(), Dir(), files, db.rows;
      if consistent {
        RemovalKeepsAgreement(rows, disk, locked, dir, keys);
      }
      cleaned := DeleteSlotFiles(keys, locked);
      var _ := db.DeleteKeys(cleaned);
    }

    /**
     * `freeSpace`: removes the slots `getKeysToDelete` picks for the budget.
     * The engine's running total is left as it was.
     */
    method FreeSpace(locked: set<FilePath>) returns (ghost order: seq<int>, ghost chosen: seq<int>)
      requires Valid()
      modifies this, db
      ensures Valid() && Dir() == old(Dir()) && totalSize == old(totalSize)
      ensures IsLastUsedOrder(old(db.rows), order)
      ensures chosen == if db.readFails then [] else OverBudget(old(db.rows), order, maxSize)
      ensures db.rows == old(db.rows) - Elements(Deleted(old(files), locked, Dir(), chosen))
      ensures files == old(files) - (FilesOf(Dir(), chosen) - locked)
      ensures old(Consistent()) ==> Consistent()
    {
      var ids;
      ids, order := db.GetKeysToDelete(maxSize);
      chosen := ids;
      var _ := RemoveKeys(ids, locked);
    }

    /**
     * The first half of `put`: upsert the key, write the slot `prepareKey`
     * answered with, finalize that slot at its file's length and add the
     * length to the running total.
     */
    method Store(key: string, stream: seq<byte>, w: WriteOutcome, now: int) returns (k: int)
      requires Valid()
      requires w.Copied? ==> w.count <= |stream|
      modifies this, db
      ensures Valid() && Dir() == old(Dir())
      ensures k == if db.readFails then -1 else MaxId(Prepare(old(db.rows), key, now))
      ensures files == Saved(old(files), SlotFile(Dir(), k), stream, w)
      ensures db.rows == Finalize(Prepare(old(db.rows), key, now), k, Length(files, SlotFile(Dir(), k)))
      ensures totalSize == old(totalSize) + Length(files, SlotFile(Dir(), k))
      ensures old(Consistent()) ==> Consistent()
    {
      ghost var consistent, rows, disk, dir := Consistent(), db.rows, files, Dir();
      k := db.PrepareKey(key, now);
      if consistent {
        PrepareKeepsAgreement(rows, disk, dir, key, now);
        SaveAndFinalizeKeepAgreement(db.rows, disk, dir, k, stream, w);
      }
      var file := ToFile(k);
      files := Saved(files, file, stream, w);
      var fileSize := Length(files, file);
      db.FinalizeKey(k, fileSize);
      totalSize := totalSize + fileSize;
    }

    /**
     * `put`: store the stream in the key's slot, then evict when the running
     * total exceeds the budget. `evicted` says whether eviction ran; `k` is
     * the slot, `mid` the table before eviction, `saved` the directory
     * before eviction.
     */
    method Put(key: string, stream: seq<byte>, w: WriteOutcome, now: int, locked: set<FilePath>)
      returns (evicted: bool, ghost k: int, ghost mid: Rows, ghost saved: Disk, ghost order: seq<int>, ghost chosen: seq<int>)
      requires Valid()
      requires w.Copied? ==> w.count <= |stream|
      modifies this, db
      ensures Valid() && Dir() == old(Dir())
      ensures k == if db.readFails then -1 else MaxId(Prepare(old(db.rows), key, now))
      ensures saved == Saved(old(files), SlotFile(Dir(), k), stream, w)
      ensures mid == Finalize(Prepare(old(db.rows), key, now), k, Length(saved, SlotFile(Dir(), k)))
      ensures totalSize == old(totalSize) + Length(saved, SlotFile(Dir(), k))
      ensures evicted <==> totalSize > maxSize
      ensures !evicted ==> db.rows == mid && files == saved
      ensures evicted ==> IsLastUsedOrder(mid, order)
      ensures evicted ==> chosen == if db.readFails then [] else OverBudget(mid, order, maxSize)
      ensures evicted ==> db.rows == mid - Elements(Deleted(saved, locked, Dir(), chosen))
      ensures evicted ==> files == saved - (FilesOf(Dir(), chosen) - locked)
      ensures old(Consistent()) ==> Consistent()
    {
      var slot := Store(key, stream, w, now);
      k := slot;
      saved, mid := files, db.rows;
      evicted := totalSize > maxSize;
      order, chosen := [], [];
      if evicted {
        order, chosen := FreeSpace(locked);
      }
    }

    /**
     * `delete`: upserts the key like `put`, and unless the answer is -1 takes
     * the running total from the table and removes the answered slot's
     * file, and its row only when the file is gone.
     */
    method Delete(key: string, now: int, locked: set<FilePath>) returns (ghost k: int)
      requires Valid()
      modifies this, db
      ensures Valid() && Dir() == old(Dir())
      ensures k == if db.readFails then -1 else MaxId(Prepare(old(db.rows), key, now))
      ensures k == -1 ==> db.rows == Prepare(old(db.rows), key, now) && files == old(files) && totalSize == old(totalSize)
      ensures k != -1 ==> totalSize == TotalSize(Prepare(old(db.rows), key, now))
      ensures k != -1 && Deletable(old(files), locked, SlotFile(Dir(), k)) ==>
        db.rows == Prepare(old(db.rows), key, now) - {k} && files == old(files) - {SlotFile(Dir(), k)}
      ensures k != -1 && !Deletable(old(files), locked, SlotFile(Dir(), k)) ==>
        db.rows == Prepare(old(db.rows), key, now) && files == old(files)
      ensures old(Consistent()) ==> Consistent()
    {
      ghost var consistent := Consistent();
      var slot := db.PrepareKey(key, now);
      k := slot;
      if consistent {
        PrepareKeepsAgreement(old(db.rows), files, Dir(), key, now);
      }
      if slot == -1 {
        return;
      }
      totalSize := db.GetTotalSize();
      var file := ToFile(slot);
      ghost var rows, disk, dir := db.rows, files, Dir();
      var ok := DeleteFile(file, locked);
      if ok {
        var _ := db.DeleteKeys([slot]);
        ElementsOfOne(slot);
        if consistent {
          RemoveOneKeepsAgreement(rows, disk, dir, slot);
        }
      }
    }

    /**
     * `getAsFile`: the finalized slot's file, or `None` (null); the key's
     * `last_used` becomes `now` only when it is found.
     */
    method GetAsFile(key: string, now: int) returns (file: Option<FilePath>)
      requires Valid()
      modifies this, db
      ensures Valid() && Dir() == old(Dir()) && files == old(files) && totalSize == old(totalSize)
      ensures file.Some? <==> !db.readFails && LookupFinalized(old(db.rows), key).Some?
      ensures file.Some? ==> file.value == SlotFile(Dir(), LookupFinalized(old(db.rows), key).value)
      ensures db.rows == if file.Some? then Touch(old(db.rows), key, now) else old(db.rows)
      ensures old(Consistent()) ==> Consistent()
    {
      var k := db.GetKey(key, now);
      if k != -1 {
        var f := ToFile(k);
        file := Some(f);
      } else {
        file := None;
      }
    }

    /**
     * `getAsObject`: delivers `onResult(null)` when the key has no finalized
     * row, otherwise parses the slot file on the cache thread and delivers
     * the parsed value, or `onError` when the parser throws.
     */
    method GetAsObject<T>(key: string, now: int, parse: Option<seq<byte>> -> ParseResult<T>) returns (d: Delivery<T>)
      requires Valid()
      modifies this, db
      ensures Valid() && Dir() == old(Dir()) && files == old(files) && totalSize == old(totalSize)
      ensures var found := LookupFinalized(old(db.rows), key);
        && (db.readFails || found.None? ==> d == OnResult(None) && db.rows == old(db.rows))
        && (!db.readFails && found.Some? ==>
              var f := SlotFile(Dir(), found.value);
              var contents := if f in files then Some(files[f]) else None;
              && db.rows == Touch(old(db.rows), key, now)
              && d == match parse(contents) case Returned(v) => OnResult(v) case Raised => OnError)
      ensures old(Consistent()) ==> Consistent()
    {
      var k := db.GetKey(key, now);
      if k == -1 {
        return OnResult(None);
      }
      var file := ToFile(k);
      var contents := if file in files then Some(files[file]) else None;
      match parse(contents)
      case Returned(v) =>
        d := OnResult(v);
      case Raised =>
        d := OnError;
    }
  }
}
