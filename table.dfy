/**
 * The `cache` table of the metadata store: one row per client key, identified
 * by its ROWID, together with the meaning of each SQL statement that the store
 * runs against it and the facts about the eviction walk.
 */
module Table {
  import opened Options

  /** One row of the `cache` table; `finalized` is the INT column, which only ever holds 0 or 1. */
  datatype Row = Row(clientKey: string, fileSize: int, finalized: bool, lastUsed: int, createdOn: int)

  /** The table, keyed by ROWID. */
  type Rows = map<int, Row>

  /**
   * What the schema and its only writer keep true: ROWIDs are allocated from 1
   * upwards, a recorded size is a file length, and the unique index on
   * `client_key` allows one row per key.
   */
  predicate TableOk(rows: Rows) {
    && (forall id :: id in rows ==> 1 <= id && 0 <= rows[id].fileSize)
    && (forall i, j :: i in rows && j in rows && rows[i].clientKey == rows[j].clientKey ==> i == j)
  }

  predicate Distinct(s: seq<int>) {
    forall i, j :: 0 <= i < j < |s| ==> s[i] != s[j]
  }

  function Elements(s: seq<int>): set<int> {
    set x | x in s
  }

  lemma ElementsOfOne(x: int)
    ensures Elements([x]) == {x}
  {
  }

  // ---------------------------------------------------------------------------
  // Extremes of finite sets of ROWIDs

  lemma NonEmptyHasElement(ids: set<int>)
    requires ids != {}
    ensures exists x :: x in ids
  {
    if forall x :: x !in ids {
      assert false;
    }
  }

  lemma GreatestExists(ids: set<int>)
    requires ids != {}
    ensures exists m :: m in ids && forall j :: j in ids ==> j <= m
  {
    NonEmptyHasElement(ids);
    var x :| x in ids;
    if ids != {x} {
      var rest := ids - {x};
      GreatestExists(rest);
      var m :| m in rest && forall j :: j in rest ==> j <= m;
      var g := if m < x then x else m;
      forall j | j in ids ensures j <= g {
        if j != x { assert j in rest; }
      }
    } else {
      assert forall j :: j in ids ==> j <= x;
    }
  }

  lemma LeastExists(ids: set<int>)
    requires ids != {}
    ensures exists m :: m in ids && forall j :: j in ids ==> m <= j
  {
    NonEmptyHasElement(ids);
    var x :| x in ids;
    if ids != {x} {
      var rest := ids - {x};
      LeastExists(rest);
      var m :| m in rest && forall j :: j in rest ==> m <= j;
      var g := if x < m then x else m;
      forall j | j in ids ensures g <= j {
        if j != x { assert j in rest; }
      }
    } else {
      assert forall j :: j in ids ==> x <= j;
    }
  }

  function Greatest(ids: set<int>): (m: int)
    requires ids != {}
    ensures m in ids && forall j :: j in ids ==> j <= m
  {
    GreatestExists(ids);
    var m :| m in ids && forall j :: j in ids ==> j <= m;
    m
  }

  function Least(ids: set<int>): (m: int)
    requires ids != {}
    ensures m in ids && forall j :: j in ids ==> m <= j
  {
    LeastExists(ids);
    var m :| m in ids && forall j :: j in ids ==> m <= j;
    m
  }

  /**
   * `coalesce(max(ROWID), 0)`; `select max(ROWID)` read with `getInt` gives the
   * same 0 on an empty table, where SQL yields NULL.
   */
  function MaxId(rows: Rows): (m: int)
    ensures rows.Keys == {} ==> m == 0
    ensures rows.Keys != {} ==> m in rows && forall id :: id in rows ==> id <= m
  {
    if rows.Keys == {} then 0 else Greatest(rows.Keys)
  }

  // ---------------------------------------------------------------------------
  // The statements of the metadata store

  /** `SELECT ROWID from cache WHERE client_key = ?`: the key's row, if it has one. */
  function FindKey(rows: Rows, key: string): (r: Option<int>)
    requires TableOk(rows)
    ensures r.Some? ==> r.value in rows && rows[r.value].clientKey == key
    ensures r.None? ==> forall id :: id in rows ==> rows[id].clientKey != key
  {
    if exists id :: id in rows && rows[id].clientKey == key then
      var id :| id in rows && rows[id].clientKey == key;
      Some(id)
    else
      None
  }

  /**
   * The ROWID that the upsert of `prepareKey` writes: the key's own ROWID when
   * it has a row (the smaller member of the `UNION`, taken by `limit 1`),
   * otherwise one more than the largest ROWID.
   */
  function UpsertSlot(rows: Rows, key: string): (slot: int)
    requires TableOk(rows)
    ensures 1 <= slot
    ensures slot in rows <==> exists id :: id in rows && rows[id].clientKey == key
    ensures slot in rows ==> rows[slot].clientKey == key
    ensures slot !in rows ==> slot == MaxId(rows) + 1 && forall id :: id in rows ==> id < slot
  {
    match FindKey(rows, key)
    case Some(id) => id
    case None => MaxId(rows) + 1
  }

  /**
   * The `INSERT or REPLACE` of `prepareKey`: afterwards the key has exactly one
   * row, reset to unfinalized with size 0 and both timestamps `now`; it sits at
   * the key's old ROWID or at a fresh one above all others; no other row
   * changes. The largest ROWID afterwards, which `prepareKey` returns, is that
   * row's ROWID exactly when the key was new or already held the largest ROWID.
   */
  function Prepare(rows: Rows, key: string, now: int): (r: Rows)
    requires TableOk(rows)
    ensures TableOk(r)
    ensures var slot := UpsertSlot(rows, key);
      && r.Keys == rows.Keys + {slot}
      && r[slot] == Row(key, 0, false, now, now)
      && (forall id :: id in r ==> (r[id].clientKey == key <==> id == slot))
      && (forall id :: id in rows && id != slot ==> r[id] == rows[id])
      && (slot in rows ==> MaxId(r) == MaxId(rows))
      && (slot !in rows ==> MaxId(r) == slot)
  {
    rows[UpsertSlot(rows, key) := Row(key, 0, false, now, now)]
  }

  /** `update cache set finalized = 1, file_size = ? WHERE rowId = ?`. */
  function Finalize(rows: Rows, id: int, len: int): (r: Rows)
    requires TableOk(rows) && 0 <= len
    ensures TableOk(r) && r.Keys == rows.Keys
    ensures id in rows ==> r[id] == rows[id].(finalized := true, fileSize := len)
    ensures forall j :: j in rows && j != id ==> r[j] == rows[j]
  {
    if id in rows then rows[id := rows[id].(finalized := true, fileSize := len)] else rows
  }

  /** `SELECT rowId FROM cache WHERE client_key = ? and finalized = 1`. */
  function LookupFinalized(rows: Rows, key: string): (r: Option<int>)
    requires TableOk(rows)
    ensures r.Some? <==> exists id :: id in rows && rows[id].clientKey == key && rows[id].finalized
    ensures r.Some? ==> r.value in rows && rows[r.value].clientKey == key && rows[r.value].finalized
  {
    match FindKey(rows, key)
    case Some(id) => if rows[id].finalized then Some(id) else None
    case None => None
  }

  /** `UPDATE cache set last_used = ? WHERE client_key = ?`. */
  function Touch(rows: Rows, key: string, now: int): (r: Rows)
    requires TableOk(rows)
    ensures TableOk(r) && r.Keys == rows.Keys
    ensures forall id :: id in rows && rows[id].clientKey != key ==> r[id] == rows[id]
    ensures forall id :: id in rows && rows[id].clientKey == key ==> r[id] == rows[id].(lastUsed := now)
  {
    map id | id in rows :: if rows[id].clientKey == key then rows[id].(lastUsed := now) else rows[id]
  }

  /** Deleting rows keeps the table well formed. */
  lemma RemoveKeepsTableOk(rows: Rows, gone: set<int>)
    requires TableOk(rows)
    ensures TableOk(rows - gone)
  {
  }

  function FinalizedIds(rows: Rows): set<int> {
    set id | id in rows && rows[id].finalized
  }

  function UnfinalizedIds(rows: Rows): set<int> {
    set id | id in rows && !rows[id].finalized
  }

  // ---------------------------------------------------------------------------
  // Sizes

  /** The `file_size` of a ROWID, 0 for a ROWID with no row. */
  function Weight(rows: Rows, id: int): int {
    if id in rows then rows[id].fileSize else 0
  }

  /** Sum of `file_size` over a set of ROWIDs. */
  function SizeOf(rows: Rows, ids: set<int>): int
    decreases ids
  {
    if ids == {} then 0 else
      var m := Least(ids);
      Weight(rows, m) + SizeOf(rows, ids - {m})
  }

  /** `SELECT sum(file_size) FROM cache where finalized = 1`. */
  function TotalSize(rows: Rows): int {
    SizeOf(rows, FinalizedIds(rows))
  }

  /** Sum of `file_size` over the whole table, finalized or not. */
  function AllSize(rows: Rows): int {
    SizeOf(rows, rows.Keys)
  }

  /** The running sum of the eviction walk after the rows of `s`. */
  function SeqSize(rows: Rows, s: seq<int>): (n: int)
    ensures TableOk(rows) ==> 0 <= n
    decreases |s|
  {
    if s == [] then 0 else SeqSize(rows, s[..|s| - 1]) + Weight(rows, s[|s| - 1])
  }

  /** A sum does not depend on which member is taken out first. */
  lemma {:induction false} SizeOfRemove(rows: Rows, ids: set<int>, k: int)
    requires k in ids
    ensures SizeOf(rows, ids) == Weight(rows, k) + SizeOf(rows, ids - {k})
    decreases ids
  {
    var m := Least(ids);
    if m != k {
      SizeOfRemove(rows, ids - {m}, k);
      var rest := ids - {k};
      assert m in rest;
      assert Least(rest) in ids;
      assert Least(rest) == m;
      assert rest - {m} == ids - {m} - {k};
    }
  }

  lemma {:induction false} SizeOfNonNegative(rows: Rows, ids: set<int>)
    requires TableOk(rows)
    ensures SizeOf(rows, ids) >= 0
    decreases ids
  {
    if ids != {} {
      SizeOfNonNegative(rows, ids - {Least(ids)});
    }
  }

  lemma {:induction false} SizeOfAgree(r1: Rows, r2: Rows, ids: set<int>)
    requires forall id :: id in ids ==> Weight(r1, id) == Weight(r2, id)
    ensures SizeOf(r1, ids) == SizeOf(r2, ids)
    decreases ids
  {
    if ids != {} {
      SizeOfAgree(r1, r2, ids - {Least(ids)});
    }
  }

  /** Walking distinct ROWIDs in any order sums the same sizes as the set of them. */
  lemma {:induction false} SeqSizeIsSizeOf(rows: Rows, s: seq<int>)
    requires Distinct(s)
    ensures SeqSize(rows, s) == SizeOf(rows, Elements(s))
    decreases |s|
  {
    if s != [] {
      var p, x := s[..|s| - 1], s[|s| - 1];
      assert s == p + [x];
      assert Distinct(p);
      SeqSizeIsSizeOf(rows, p);
      SizeOfRemove(rows, Elements(s), x);
      assert Elements(s) - {x} == Elements(p);
    }
  }

  lemma TotalSizeNonNegative(rows: Rows)
    requires TableOk(rows)
    ensures TotalSize(rows) >= 0
  {
    SizeOfNonNegative(rows, FinalizedIds(rows));
  }

  // ---------------------------------------------------------------------------
  // The eviction walk: `SELECT ROWID, file_size from cache ORDER BY last_used desc`

  /**
   * An order in which the query may deliver the table: every row exactly once,
   * `last_used` never increasing. Rows with equal `last_used` may come in any
   * order: the query has no tie-break.
   */
  predicate IsLastUsedOrder(rows: Rows, order: seq<int>) {
    && Distinct(order)
    && (forall i :: 0 <= i < |order| ==> order[i] in rows)
    && (forall id :: id in rows ==> id in order)
    && (forall i, j :: 0 <= i < j < |order| ==> rows[order[i]].lastUsed >= rows[order[j]].lastUsed)
  }

  lemma MostRecentExists(rows: Rows, ids: set<int>)
    requires ids != {} && ids <= rows.Keys
    ensures exists m :: m in ids && forall j :: j in ids ==> rows[j].lastUsed <= rows[m].lastUsed
  {
    NonEmptyHasElement(ids);
    var x :| x in ids;
    if ids != {x} {
      var rest := ids - {x};
      MostRecentExists(rows, rest);
      var m :| m in rest && forall j :: j in rest ==> rows[j].lastUsed <= rows[m].lastUsed;
      var g := if rows[m].lastUsed < rows[x].lastUsed then x else m;
      forall j | j in ids ensures rows[j].lastUsed <= rows[g].lastUsed {
        if j != x { assert j in rest; }
      }
    } else {
      assert forall j :: j in ids ==> rows[j].lastUsed <= rows[x].lastUsed;
    }
  }

  /** Putting the most recently used row in front of an order of the others gives an order of all. */
  lemma ConsLastUsedOrder(rows: Rows, m: int, rest: seq<int>)
    requires m in rows && forall j :: j in rows ==> rows[j].lastUsed <= rows[m].lastUsed
    requires IsLastUsedOrder(rows - {m}, rest)
    ensures IsLastUsedOrder(rows, [m] + rest)
  {
    var order := [m] + rest;
    var others := rows - {m};
    forall i | 0 <= i < |rest| ensures rest[i] in rows && rest[i] != m && rows[rest[i]] == others[rest[i]] {
      assert rest[i] in others;
    }
    forall i, j | 0 <= i < j < |order| ensures order[i] != order[j] && rows[order[i]].lastUsed >= rows[order[j]].lastUsed {
      assert order[j] == rest[j - 1];
      if i > 0 {
        assert order[i] == rest[i - 1];
      }
    }
    forall id | id in rows ensures id in order {
      if id != m {
        assert id in others;
      }
    }
  }

  /** One order the query can deliver: the most recently used row first, then the rest. */
  ghost function SomeOrder(rows: Rows): (order: seq<int>)
    ensures IsLastUsedOrder(rows, order)
    decreases rows.Keys
  {
    if rows.Keys == {} then [] else
      MostRecentExists(rows, rows.Keys);
      var m :| m in rows && forall j :: j in rows ==> rows[j].lastUsed <= rows[m].lastUsed;
      var rest := SomeOrder(rows - {m});
      ConsLastUsedOrder(rows, m, rest);
      [m] + rest
  }

  lemma LastUsedOrderExists(rows: Rows)
    ensures exists order: seq<int> :: IsLastUsedOrder(rows, order)
  {
    assert IsLastUsedOrder(rows, SomeOrder(rows));
  }

  /** The running sum of the walk in `order` once it has passed position `i`. */
  function RunningSum(rows: Rows, order: seq<int>, i: int): int
    requires 0 <= i < |order|
  {
    SeqSize(rows, order[..i + 1])
  }

  /**
   * What `getKeysToDelete` collects on a walk in `order`: the ROWID of every
   * position at which the running sum of `file_size` exceeds the budget, in
   * walk order.
   */
  function OverBudget(rows: Rows, order: seq<int>, budget: int): (r: seq<int>)
    ensures |r| <= |order|
    decreases |order|
  {
    if order == [] then []
    else
      OverBudget(rows, order[..|order| - 1], budget)
        + (if SeqSize(rows, order) > budget then [order[|order| - 1]] else [])
  }

  /** Cutting the walk after position `m` does not change the running sums before it. */
  lemma RunningSumOfPrefix(rows: Rows, order: seq<int>, m: int, i: int)
    requires 0 <= i < m <= |order|
    ensures RunningSum(rows, order[..m], i) == RunningSum(rows, order, i)
  {
    assert order[..m][..i + 1] == order[..i + 1];
  }

  /** At the last position the running sum is the size of the whole walk. */
  lemma RunningSumOfLast(rows: Rows, order: seq<int>)
    requires order != []
    ensures RunningSum(rows, order, |order| - 1) == SeqSize(rows, order)
  {
    assert order[..|order| - 1 + 1] == order;
  }

  /**
   * One step of the walk: the chosen ROWIDs of the whole walk are those of
   * the walk without its last position, plus the last position when the
   * running sum there exceeds the budget.
   */
  lemma {:induction false} OverBudgetStep(rows: Rows, order: seq<int>, budget: int)
    requires TableOk(rows) && order != []
    ensures var p := order[..|order| - 1];
      && SeqSize(rows, p) <= SeqSize(rows, order)
      && OverBudget(rows, order, budget)
         == OverBudget(rows, p, budget) + (if RunningSum(rows, order, |order| - 1) > budget then [order[|order| - 1]] else [])
  {
    RunningSumOfLast(rows, order);
    assert Weight(rows, order[|order| - 1]) >= 0;
  }

  /** Dropping the last position and putting it back after a tail gives the longer tail. */
  lemma SnocSuffix(order: seq<int>, m: int)
    requires 0 <= m < |order|
    ensures order[..|order| - 1][m..] + [order[|order| - 1]] == order[m..]
  {
  }

  /** Whether the chosen ROWIDs of a walk are a tail of it, positions from `|order| - |r|` on. */
  predicate IsChosenTail(rows: Rows, order: seq<int>, budget: int) {
    var r := OverBudget(rows, order, budget);
    |r| <= |order| && r == order[|order| - |r|..]
  }

  /** Whether a position is chosen exactly when the running sum up to it exceeds the budget. */
  predicate ChosenAtThreshold(rows: Rows, order: seq<int>, budget: int)
    requires |OverBudget(rows, order, budget)| <= |order|
  {
    var r := OverBudget(rows, order, budget);
    forall i :: 0 <= i < |order| ==> (|order| - |r| <= i <==> RunningSum(rows, order, i) > budget)
  }

  /** The threshold property carries over from the walk without its last position to the whole walk. */
  lemma {:induction false} ThresholdStep(rows: Rows, order: seq<int>, budget: int)
    requires TableOk(rows) && order != []
    requires |OverBudget(rows, order[..|order| - 1], budget)| <= |order| - 1
    requires ChosenAtThreshold(rows, order[..|order| - 1], budget)
    ensures |OverBudget(rows, order, budget)| <= |order|
    ensures ChosenAtThreshold(rows, order, budget)
  {
    var n := |order|;
    var p := order[..n - 1];
    OverBudgetStep(rows, order, budget);
    RunningSumOfLast(rows, order);
    var r := OverBudget(rows, order, budget);
    if n >= 2 {
      RunningSumOfLast(rows, p);
    }
    forall i | 0 <= i < n ensures (n - |r| <= i <==> RunningSum(rows, order, i) > budget) {
      if i < n - 1 {
        RunningSumOfPrefix(rows, order, n - 1, i);
      }
    }
  }

  /** The tail shape carries over from the walk without its last position to the whole walk. */
  lemma {:induction false} TailStep(rows: Rows, order: seq<int>, budget: int)
    requires TableOk(rows) && order != []
    requires IsChosenTail(rows, order[..|order| - 1], budget)
    requires ChosenAtThreshold(rows, order[..|order| - 1], budget)
    ensures IsChosenTail(rows, order, budget)
  {
    var n := |order|;
    var p := order[..n - 1];
    OverBudgetStep(rows, order, budget);
    var rp := OverBudget(rows, p, budget);
    if RunningSum(rows, order, n - 1) > budget {
      SnocSuffix(order, n - 1 - |rp|);
    } else {
      if n >= 2 {
        RunningSumOfLast(rows, p);
      }
      assert rp == [];
    }
  }

  /**
   * Sizes are never negative, so the running sum never falls: the collected
   * ROWIDs are a suffix of the walk, and a position is in that suffix exactly
   * when the running sum up to it exceeds the budget. Once a row is chosen,
   * every later row is chosen.
   */
  lemma {:induction false} OverBudgetIsSuffix(rows: Rows, order: seq<int>, budget: int)
    requires TableOk(rows)
    ensures var r := OverBudget(rows, order, budget);
      && |r| <= |order|
      && r == order[|order| - |r|..]
      && forall i :: 0 <= i < |order| ==> (|order| - |r| <= i <==> RunningSum(rows, order, i) > budget)
    decreases |order|
  {
    if order != [] {
      OverBudgetIsSuffix(rows, order[..|order| - 1], budget);
      ThresholdStep(rows, order, budget);
      TailStep(rows, order, budget);
    }
  }

  /** Eviction only chooses ROWIDs of the table. */
  lemma ChosenWithinTable(rows: Rows, order: seq<int>, budget: int)
    requires TableOk(rows) && IsLastUsedOrder(rows, order)
    ensures Elements(OverBudget(rows, order, budget)) <= rows.Keys
  {
    var r := OverBudget(rows, order, budget);
    OverBudgetIsSuffix(rows, order, budget);
    forall x | x in Elements(r) ensures x in rows {
      var i :| 0 <= i < |r| && r[i] == x;
      assert r[i] == order[|order| - |r| + i];
    }
  }

  /** The chosen ROWIDs are the tail of the walk from the first chosen position. */
  lemma ChosenSuffix(rows: Rows, order: seq<int>, budget: int)
    requires TableOk(rows)
    ensures |OverBudget(rows, order, budget)| <= |order|
    ensures OverBudget(rows, order, budget) == order[|order| - |OverBudget(rows, order, budget)|..]
  {
    OverBudgetIsSuffix(rows, order, budget);
  }

  /** The rows the walk passes without choosing fit within a non-negative budget. */
  lemma KeptWithinBudget(rows: Rows, order: seq<int>, budget: int)
    requires TableOk(rows) && 0 <= budget
    ensures |OverBudget(rows, order, budget)| <= |order|
    ensures SeqSize(rows, order[..|order| - |OverBudget(rows, order, budget)|]) <= budget
  {
    OverBudgetIsSuffix(rows, order, budget);
    var k := |order| - |OverBudget(rows, order, budget)|;
    if k > 0 {
      assert order[..k - 1 + 1] == order[..k];
      assert RunningSum(rows, order, k - 1) <= budget;
    }
  }

  /** An order of the table lists exactly its ROWIDs. */
  lemma OrderElements(rows: Rows, order: seq<int>)
    requires IsLastUsedOrder(rows, order)
    ensures Elements(order) == rows.Keys
  {
    forall x | x in Elements(order) ensures x in rows {
      var i :| 0 <= i < |order| && order[i] == x;
    }
    forall x | x in rows ensures x in Elements(order) {
      assert x in order;
    }
  }

  /** Without repeats, position `p` is in the suffix from `k` exactly when `k <= p`. */
  lemma InSuffixIff(s: seq<int>, k: int, p: int)
    requires Distinct(s) && 0 <= k <= |s| && 0 <= p < |s|
    ensures s[p] in s[k..] <==> k <= p
  {
    if k <= p {
      assert s[k..][p - k] == s[p];
    } else {
      forall j | 0 <= j < |s| - k ensures s[k..][j] != s[p] {
        assert s[k..][j] == s[k + j];
      }
    }
  }

  /** Without repeats, the elements before position `k` are those not at or after it. */
  lemma SplitElements(s: seq<int>, k: int)
    requires Distinct(s) && 0 <= k <= |s|
    ensures Distinct(s[..k])
    ensures Elements(s[..k]) == Elements(s) - Elements(s[k..])
  {
    forall x | x in Elements(s[..k]) ensures x in Elements(s) && x !in Elements(s[k..]) {
      var i :| 0 <= i < k && s[..k][i] == x;
      assert s[i] == x;
      forall j | 0 <= j < |s| - k ensures s[k..][j] != x {
        assert s[k..][j] == s[k + j];
      }
    }
    forall x | x in Elements(s) && x !in Elements(s[k..]) ensures x in Elements(s[..k]) {
      var i :| 0 <= i < |s| && s[i] == x;
      InSuffixIff(s, k, i);
      assert s[..k][i] == x;
    }
  }

  /** When the whole table fits within the budget, the walk chooses nothing. */
  lemma NothingEvictedWithinBudget(rows: Rows, order: seq<int>, budget: int)
    requires TableOk(rows) && IsLastUsedOrder(rows, order)
    requires AllSize(rows) <= budget
    ensures OverBudget(rows, order, budget) == []
  {
    OverBudgetIsSuffix(rows, order, budget);
    SeqSizeIsSizeOf(rows, order);
    OrderElements(rows, order);
    var n := |order|;
    if n > 0 {
      assert order[..n - 1 + 1] == order;
      assert RunningSum(rows, order, n - 1) == AllSize(rows);
    }
  }

  /** Removing the rows from position `k` on leaves the size the walk had reached at `k`. */
  lemma RemainingSize(rows: Rows, order: seq<int>, k: int)
    requires IsLastUsedOrder(rows, order) && 0 <= k <= |order|
    ensures AllSize(rows - Elements(order[k..])) == SeqSize(rows, order[..k])
  {
    SplitElements(order, k);
    OrderElements(rows, order);
    SeqSizeIsSizeOf(rows, order[..k]);
    var gone := Elements(order[k..]);
    var kept := rows - gone;
    assert kept.Keys == rows.Keys - gone;
    forall id | id in kept.Keys ensures Weight(kept, id) == Weight(rows, id) {
      assert kept[id] == rows[id];
    }
    SizeOfAgree(kept, rows, kept.Keys);
  }

  /**
   * Removing every chosen row leaves a table whose whole size is within a
   * non-negative budget.
   */
  lemma EvictionRestoresBudget(rows: Rows, order: seq<int>, budget: int)
    requires TableOk(rows) && IsLastUsedOrder(rows, order) && 0 <= budget
    ensures AllSize(rows - Elements(OverBudget(rows, order, budget))) <= budget
  {
    var r := OverBudget(rows, order, budget);
    var k := |order| - |r|;
    KeptWithinBudget(rows, order, budget);
    ChosenSuffix(rows, order, budget);
    RemainingSize(rows, order, k);
    assert r == order[k..];
    assert SeqSize(rows, order[..k]) <= budget;
    assert AllSize(rows - Elements(order[k..])) <= budget;
  }

  /** The rows used at or after time `t`. */
  function UsedSince(rows: Rows, t: int): set<int> {
    set j | j in rows && rows[j].lastUsed >= t
  }

  /** When no other row shares its `last_used`, the walk up to a row passes exactly the rows used no earlier. */
  lemma PrefixIsUsedSince(rows: Rows, order: seq<int>, p: int)
    requires IsLastUsedOrder(rows, order) && 0 <= p < |order|
    requires forall j :: j in rows && j != order[p] ==> rows[j].lastUsed != rows[order[p]].lastUsed
    ensures Elements(order[..p + 1]) == UsedSince(rows, rows[order[p]].lastUsed)
  {
    var t := rows[order[p]].lastUsed;
    forall j | j in Elements(order[..p + 1]) ensures j in UsedSince(rows, t) {
      var i :| 0 <= i < p + 1 && order[..p + 1][i] == j;
      assert order[i] == j;
      assert i < p ==> rows[order[i]].lastUsed >= rows[order[p]].lastUsed;
    }
    forall j | j in UsedSince(rows, t) ensures j in Elements(order[..p + 1]) {
      var q :| 0 <= q < |order| && order[q] == j;
      assert q <= p;
      assert order[..p + 1][q] == j;
    }
  }

  /**
   * For a row whose `last_used` no other row shares, whether it is chosen does
   * not depend on the order among ties: it is chosen exactly when the rows used
   * no earlier than it exceed the budget together.
   */
  lemma EvictedIffNewerRowsExceed(rows: Rows, order: seq<int>, budget: int, id: int)
    requires TableOk(rows) && IsLastUsedOrder(rows, order)
    requires id in rows
    requires forall j :: j in rows && j != id ==> rows[j].lastUsed != rows[id].lastUsed
    ensures id in OverBudget(rows, order, budget) <==> SizeOf(rows, UsedSince(rows, rows[id].lastUsed)) > budget
  {
    var r := OverBudget(rows, order, budget);
    var n := |order|;
    OverBudgetIsSuffix(rows, order, budget);
    var p :| 0 <= p < n && order[p] == id;
    assert r == order[n - |r|..];
    InSuffixIff(order, n - |r|, p);
    PrefixIsUsedSince(rows, order, p);
    SplitElements(order, p + 1);
    SeqSizeIsSizeOf(rows, order[..p + 1]);
    assert RunningSum(rows, order, p) == SeqSize(rows, order[..p + 1]);
  }
}
