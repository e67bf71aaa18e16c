/**
 * The cache directory: one file per slot, named after the slot's ROWID, and
 * the outcomes of writing and deleting such files.
 */
module Blobs {
  import opened SqlText
  import opened Table

  newtype byte = b: int | 0 <= b < 256

  /** A file inside a directory. */
  datatype FilePath = FilePath(dir: string, name: string)

  /** The files that exist, with their contents. */
  type Disk = map<FilePath, seq<byte>>

  const Extension: string := ".vif"

  /** `new File(cacheDir, k + ".vif")`. */
  function SlotFile(dir: string, k: int): FilePath {
    FilePath(dir, Decimal(k) + Extension)
  }

  /** Different slots of one directory are different files. */
  lemma SlotFileInjective(dir: string, a: int, b: int)
    ensures SlotFile(dir, a) == SlotFile(dir, b) <==> a == b
  {
    var da, db := Decimal(a), Decimal(b);
    if da + Extension == db + Extension {
      assert |da| == |db|;
      assert (da + Extension)[..|da|] == da;
      assert (db + Extension)[..|db|] == db;
    }
    DecimalInjective(a, b);
  }

  /** `File.length()`: the number of bytes, 0 for a file that does not exist. */
  function Length(disk: Disk, f: FilePath): nat {
    if f in disk then |disk[f]| else 0
  }

  /**
   * How copying the stream into a slot file ended: the file could not be
   * opened, or the first `count` bytes were written before the stream ended
   * or an I/O error stopped the copy.
   */
  datatype WriteOutcome = OpenFailed | Copied(count: nat)

  /**
   * `saveFile`: opening for writing truncates the file and every copied byte
   * lands in it, so the file holds a prefix of the stream; when the file could
   * not be opened nothing changes. Errors are swallowed either way.
   */
  function Saved(disk: Disk, f: FilePath, stream: seq<byte>, w: WriteOutcome): (d: Disk)
    requires w.Copied? ==> w.count <= |stream|
    ensures forall g :: g != f ==> (g in d <==> g in disk) && (g in d ==> d[g] == disk[g])
    ensures w.Copied? ==> f in d && d[f] <= stream && Length(d, f) == w.count
    ensures w.OpenFailed? ==> d == disk
  {
    match w
    case OpenFailed => disk
    case Copied(n) => disk[f := stream[..n]]
  }

  /** `deleteFile`: `!file.exists() || file.delete()`; a file in `locked` resists deletion. */
  predicate Deletable(disk: Disk, locked: set<FilePath>, f: FilePath) {
    f !in disk || f !in locked
  }

  /** The slot files of some ROWIDs. */
  function FilesOf(dir: string, keys: seq<int>): set<FilePath> {
    set k | k in keys :: SlotFile(dir, k)
  }

  /**
   * The ROWIDs, in order, whose slot file `removeKeys` manages to delete when
   * it works through `keys` on `disk`. A file that is deleted once is absent
   * afterwards, so a repeated ROWID succeeds exactly when its first attempt
   * did, and success is decided by the disk as it was at the start.
   */
  function Deleted(disk: Disk, locked: set<FilePath>, dir: string, keys: seq<int>): (r: seq<int>)
    ensures |r| <= |keys|
    decreases |keys|
  {
    if keys == [] then []
    else
      var k := keys[|keys| - 1];
      var front := Deleted(disk, locked, dir, keys[..|keys| - 1]);
      if Deletable(disk, locked, SlotFile(dir, k)) then front + [k] else front
  }

  /** `removeKeys` cleans a ROWID exactly when it is among the keys and its slot file is deletable. */
  lemma {:induction false} DeletedElements(disk: Disk, locked: set<FilePath>, dir: string, keys: seq<int>)
    ensures Elements(Deleted(disk, locked, dir, keys)) == set k | k in keys && Deletable(disk, locked, SlotFile(dir, k))
    decreases |keys|
  {
    if keys != [] {
      var k := keys[|keys| - 1];
      var front := keys[..|keys| - 1];
      DeletedElements(disk, locked, dir, front);
      assert keys == front + [k];
      assert Elements(Deleted(disk, locked, dir, front) + [k]) == Elements(Deleted(disk, locked, dir, front)) + {k};
      assert (set j | j in keys && Deletable(disk, locked, SlotFile(dir, j)))
        == (set j | j in front && Deletable(disk, locked, SlotFile(dir, j)))
           + (if Deletable(disk, locked, SlotFile(dir, k)) then {k} else {});
    }
  }
}
