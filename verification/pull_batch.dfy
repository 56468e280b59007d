/** `pull_batch`: cursor-based micro-batch extraction. The cursor is the text
    of the `last_processed_id` record; one pull, run as a single transaction,
    reads it (creating it as "0" when absent), fetches the next rows above it
    in id order, and advances it to the largest id fetched. */
module PullBatch {
  import opened Base
  import opened Frames
  import Decimal

  const MicroBatchSize: nat := 10
  const IdColumn := "id"
  const CreatedAtColumn := "created_at"

  /** A source row: its `id`, and every other column by name. */
  datatype SourceRow = SourceRow(id: int, cells: map<string, Value>)

  /** A row handed downstream, by column name. */
  type Row = map<string, Value>

  /** The durable state one pull reads and writes: the cursor record's text
      (absent until the first pull) and the source table. */
  datatype Db = Db(cursor: Option<string>, table: seq<SourceRow>)

  /** `int(value)` raising on a cursor record that is not a number. */
  datatype PullError = UnreadableCursor(text: string)

  // ---------------------------------------------------------------------
  // The cursor record.
  // ---------------------------------------------------------------------

  /** The number a read of the cursor record yields: 0 when there is no
      record yet, the parsed text otherwise, nothing when it does not parse. */
  function CursorValue(cursor: Option<string>): Option<int> {
    match cursor
    case None => Some(0)
    case Some(t) => Decimal.Parse(t)
  }

  /** `_get_last_processed_id`: returns the record after the read (created
      as "0" if it was absent) and the number read. Afterwards the record
      always exists and reads as the number returned. */
  function GetLastProcessedId(cursor: Option<string>): (r: Result<(Option<string>, int), PullError>)
    ensures cursor.None? ==> r == Ok((Some("0"), 0))
    ensures r.Ok? <==> CursorValue(cursor).Some?
    ensures r.Ok? ==> && r.value.0.Some?
                      && CursorValue(r.value.0) == Some(r.value.1)
                      && (cursor.Some? ==> r.value.0 == cursor)
  {
    match cursor
    case None =>
      assert Decimal.Parse("0") == Some(0) by {
        Decimal.ParseShow(0);
        assert Decimal.Show(0) == "0";
      }
      Ok((Some("0"), 0))
    case Some(t) =>
      match Decimal.Parse(t)
      case None => Err(UnreadableCursor(t))
      case Some(n) => Ok((cursor, n))
  }

  /** `_update_last_processed_id`: rewrites an existing record as the text
      of `newId`, which reads back as `newId`; with no record the `UPDATE`
      matches nothing and nothing is stored. */
  function UpdateLastProcessedId(cursor: Option<string>, newId: int): (r: Option<string>)
    ensures r.Some? <==> cursor.Some?
    ensures r.Some? ==> CursorValue(r) == Some(newId)
  {
    Decimal.ParseShow(newId);
    if cursor.None? then None else Some(Decimal.Show(newId))
  }

  /** Writing then reading the cursor gives back what was written, provided
      the record exists; an update before the record exists is lost. */
  lemma CursorRoundTrip(cursor: Option<string>, n: int)
    ensures cursor.Some? ==> GetLastProcessedId(UpdateLastProcessedId(cursor, n)).Ok?
                             && GetLastProcessedId(UpdateLastProcessedId(cursor, n)).value.1 == n
    ensures cursor.None? ==> GetLastProcessedId(UpdateLastProcessedId(cursor, n)) == Ok((Some("0"), 0))
  {
  }

  // ---------------------------------------------------------------------
  // The query `SELECT * ... WHERE id > :last_id ORDER BY id LIMIT :limit`.
  // ---------------------------------------------------------------------

  /** No row of the table lies above `after`. */
  predicate NothingAbove(table: seq<SourceRow>, after: int) {
    forall k :: 0 <= k < |table| ==> table[k].id <= after
  }

  /** Every row of `b` is a row of the table above `after`. */
  predicate RowsAbove(table: seq<SourceRow>, after: int, b: seq<SourceRow>) {
    forall k :: 0 <= k < |b| ==> b[k] in table && b[k].id > after
  }

  /** Every row of `b` is a row of the table with an id in `(lo, hi]`. */
  predicate Within(table: seq<SourceRow>, lo: int, hi: int, b: seq<SourceRow>) {
    forall k :: 0 <= k < |b| ==> b[k] in table && lo < b[k].id <= hi
  }

  /** Every row of the table with an id in `(lo, hi]` is in `b`. */
  predicate Covers(table: seq<SourceRow>, lo: int, hi: int, b: seq<SourceRow>) {
    forall k :: 0 <= k < |table| && lo < table[k].id <= hi ==> table[k] in b
  }

  /** `m` is the least id above `after` in the table. */
  predicate IsLeastIdAbove(table: seq<SourceRow>, after: int, m: int) {
    && m > after
    && (exists k :: 0 <= k < |table| && table[k].id == m)
    && forall k :: 0 <= k < |table| && table[k].id > after ==> m <= table[k].id
  }

  /** `r` holds exactly the table's rows carrying `id`. */
  predicate IsTier(table: seq<SourceRow>, id: int, r: seq<SourceRow>) {
    && (forall k :: 0 <= k < |r| ==> r[k] in table && r[k].id == id)
    && (forall k :: 0 <= k < |table| && table[k].id == id ==> table[k] in r)
  }

  /** Ids never decrease along `b`. */
  predicate Ascending(b: seq<SourceRow>) {
    forall i, j :: 0 <= i < j < |b| ==> IdAt(b, i) <= IdAt(b, j)
  }

  /** Each id is smaller than the next one. */
  predicate StrictlyAscending(b: seq<SourceRow>) {
    |b| < 2 || (b[0].id < b[1].id && StrictlyAscending(b[1..]))
  }

  /** `StrictlyAscending` is the pairwise order: every id is smaller than
      every id after it. */
  lemma {:induction false} StrictlyAscendingIsPairwise(b: seq<SourceRow>)
    ensures StrictlyAscending(b) <==> forall i, j :: 0 <= i < j < |b| ==> b[i].id < b[j].id
  {
    if |b| >= 2 {
      StrictlyAscendingIsPairwise(b[1..]);
      if StrictlyAscending(b) {
        forall i, j | 0 <= i < j < |b| ensures b[i].id < b[j].id {
          if i > 0 {
            assert b[i] == b[1..][i - 1] && b[j] == b[1..][j - 1];
          } else if j > 1 {
            assert b[1] == b[1..][0] && b[j] == b[1..][j - 1];
          }
        }
      }
      if forall i, j :: 0 <= i < j < |b| ==> b[i].id < b[j].id {
        forall i, j | 0 <= i < j < |b[1..]| ensures b[1..][i].id < b[1..][j].id {
          assert b[1..][i] == b[i + 1] && b[1..][j] == b[j + 1];
        }
      }
    }
  }

  /** The id of row `k`. */
  function IdAt(table: seq<SourceRow>, k: nat): int
    requires k < |table|
  {
    table[k].id
  }

  /** Ids are unique across the table. (Stated through `IdAt`, so that the
      pairwise fact is only used where a proof asks for it.) */
  predicate UniqueIds(table: seq<SourceRow>) {
    forall i, j :: 0 <= i < j < |table| ==> IdAt(table, i) != IdAt(table, j)
  }

  /** The least id above `after` among the table's rows, if there is one.
      `LeastIdAboveIsLeast` states that it is the least. */
  function LeastIdAbove(table: seq<SourceRow>, after: int): (r: Option<int>)
    ensures r.Some? ==> r.value > after
  {
    if |table| == 0 then None
    else
      var rest := LeastIdAbove(table[1..], after);
      if table[0].id <= after then rest
      else if rest.Some? && rest.value <= table[0].id then rest
      else Some(table[0].id)
  }

  /** `LeastIdAbove` finds nothing exactly when no row lies above `after`,
      and otherwise finds the least id above `after`. */
  lemma {:induction false} LeastIdAboveIsLeast(table: seq<SourceRow>, after: int)
    ensures LeastIdAbove(table, after).None? <==> NothingAbove(table, after)
    ensures LeastIdAbove(table, after).Some? ==> IsLeastIdAbove(table, after, LeastIdAbove(table, after).value)
  {
    if |table| > 0 {
      LeastIdAboveIsLeast(table[1..], after);
      assert forall k :: 1 <= k < |table| ==> table[k] == table[1..][k - 1];
    }
  }

  /** The rows carrying `id`, in table order. `WithIdIsTier` states that
      they are exactly the table's rows carrying `id`. */
  function WithId(table: seq<SourceRow>, id: int): (r: seq<SourceRow>)
    ensures |r| <= |table|
  {
    if |table| == 0 then []
    else
      (if table[0].id == id then [table[0]] else []) + WithId(table[1..], id)
  }

  /** `WithId` holds exactly the rows carrying `id`. */
  lemma {:induction false} WithIdIsTier(table: seq<SourceRow>, id: int)
    ensures IsTier(table, id, WithId(table, id))
  {
    if |table| > 0 {
      WithIdIsTier(table[1..], id);
      assert forall row :: row in table <==> row == table[0] || row in table[1..];
      assert forall k :: 1 <= k < |table| ==> table[k] == table[1..][k - 1];
    }
  }

  /** When some row lies above `after`, the rows carrying the least id above
      it form a non-empty tier. */
  lemma LeastTier(table: seq<SourceRow>, after: int)
    requires LeastIdAbove(table, after).Some?
    ensures IsLeastIdAbove(table, after, LeastIdAbove(table, after).value)
    ensures IsTier(table, LeastIdAbove(table, after).value, WithId(table, LeastIdAbove(table, after).value))
    ensures |WithId(table, LeastIdAbove(table, after).value)| > 0
  {
    var m := LeastIdAbove(table, after).value;
    LeastIdAboveIsLeast(table, after);
    WithIdIsTier(table, m);
    var k :| 0 <= k < |table| && table[k].id == m;
    assert table[k] in WithId(table, m);
  }

  /** The query's result: at most `limit` rows of the table, all above
      `after`, in ascending id order; rows sharing an id come in table
      order. `FetchIsEmptyIffNothingAbove` and `FetchIsComplete` state
      which rows it must hold. */
  function Fetch(table: seq<SourceRow>, after: int, limit: nat): (b: seq<SourceRow>)
    decreases limit
    ensures |b| <= limit
  {
    if limit == 0 then []
    else
      match LeastIdAbove(table, after)
      case None => []
      case Some(m) =>
        var tier := WithId(table, m);
        LeastTier(table, after);
        if |tier| >= limit then tier[..limit]
        else
          var rest := Fetch(table, m, limit - |tier|);
          TierThenRest(tier, rest, m);
          tier + rest
  }

  /** The query returns rows of the table above `after`. */
  lemma {:induction false} FetchRowsAbove(table: seq<SourceRow>, after: int, limit: nat)
    ensures RowsAbove(table, after, Fetch(table, after, limit))
    decreases limit
  {
    if limit > 0 && LeastIdAbove(table, after).Some? {
      var m := LeastIdAbove(table, after).value;
      var tier := WithId(table, m);
      LeastTier(table, after);
      if |tier| < limit {
        FetchRowsAbove(table, m, limit - |tier|);
        TierThenRest(tier, Fetch(table, m, limit - |tier|), m);
      }
    }
  }

  /** The query returns only ids above `after`. */
  lemma FetchIdsAbove(table: seq<SourceRow>, after: int, limit: nat)
    ensures IdsAbove(Fetch(table, after, limit), after)
  {
    FetchRowsAbove(table, after, limit);
  }

  /** One level of the query: with a row above `after`, the tier at the
      least id `m` above it comes first, cut at `limit` or followed by the
      query above `m`. */
  lemma FetchUnfold(table: seq<SourceRow>, after: int, limit: nat)
    requires limit > 0 && LeastIdAbove(table, after).Some?
    ensures var m := LeastIdAbove(table, after).value;
            var tier := WithId(table, m);
            && 0 < |tier|
            && (forall k :: 0 <= k < |tier| ==> tier[k].id == m)
            && Fetch(table, after, limit) == if |tier| >= limit then tier[..limit] else tier + Fetch(table, m, limit - |tier|)
  {
    LeastTier(table, after);
  }

  /** The query returns its rows in ascending id order. */
  lemma {:induction false} FetchIsAscending(table: seq<SourceRow>, after: int, limit: nat)
    ensures Ascending(Fetch(table, after, limit))
    decreases limit
  {
    if limit > 0 && LeastIdAbove(table, after).Some? {
      var m := LeastIdAbove(table, after).value;
      var tier := WithId(table, m);
      FetchUnfold(table, after, limit);
      if |tier| < limit {
        FetchIsAscending(table, m, limit - |tier|);
        FetchIdsAbove(table, m, limit - |tier|);
        TierThenRestAscends(tier, Fetch(table, m, limit - |tier|), m);
      }
    }
  }

  /** A tier of rows all carrying `m`, followed by more rows, holds exactly
      the rows of both and ends where `rest` ends (or where the tier ends,
      when `rest` is empty). */
  lemma TierThenRest(tier: seq<SourceRow>, rest: seq<SourceRow>, m: int)
    requires forall k :: 0 <= k < |tier| ==> tier[k].id == m
    ensures forall row :: row in tier + rest <==> row in tier || row in rest
    ensures |tier + rest| > 0 ==> (tier + rest)[|tier + rest| - 1].id == if |rest| > 0 then rest[|rest| - 1].id else m
  {
  }

  /** A tier of rows all carrying `m`, followed by ascending rows above `m`,
      is ascending. */
  lemma TierThenRestAscends(tier: seq<SourceRow>, rest: seq<SourceRow>, m: int)
    requires forall k :: 0 <= k < |tier| ==> tier[k].id == m
    requires IdsAbove(rest, m)
    requires Ascending(rest)
    ensures Ascending(tier + rest)
  {
    var b := tier + rest;
    forall i, j | 0 <= i < j < |b| ensures IdAt(b, i) <= IdAt(b, j) {
      if j >= |tier| {
        assert b[j] == rest[j - |tier|];
        if i >= |tier| {
          assert b[i] == rest[i - |tier|];
          assert IdAt(rest, i - |tier|) <= IdAt(rest, j - |tier|);
        } else {
          assert b[i] == tier[i];
          assert rest[j - |tier|] in rest;
        }
      } else {
        assert b[i] == tier[i] && b[j] == tier[j];
      }
    }
  }

  /** Every row above `after` and below the last id of `b` is in `b`. */
  predicate NoneSkipped(table: seq<SourceRow>, after: int, b: seq<SourceRow>) {
    |b| > 0 ==> forall k :: 0 <= k < |table| && after < table[k].id < b[|b| - 1].id ==> table[k] in b
  }

  /** Every row above `after` is in `b`. */
  predicate HoldsAllAbove(table: seq<SourceRow>, after: int, b: seq<SourceRow>) {
    forall k :: 0 <= k < |table| && table[k].id > after ==> table[k] in b
  }

  /** The query is empty exactly when nothing lies above `after` (or the
      limit is 0). */
  lemma FetchIsEmptyIffNothingAbove(table: seq<SourceRow>, after: int, limit: nat)
    ensures |Fetch(table, after, limit)| == 0 <==> limit == 0 || NothingAbove(table, after)
  {
    LeastIdAboveIsLeast(table, after);
    if limit > 0 && LeastIdAbove(table, after).Some? {
      LeastTier(table, after);
    }
  }

  /** The query passes nothing over: every row above `after` and below the
      last id returned is in it, and a result shorter than `limit` holds
      every row above `after`. */
  lemma {:induction false} FetchIsComplete(table: seq<SourceRow>, after: int, limit: nat)
    ensures NoneSkipped(table, after, Fetch(table, after, limit))
    ensures |Fetch(table, after, limit)| < limit ==> HoldsAllAbove(table, after, Fetch(table, after, limit))
    decreases limit
  {
    LeastIdAboveIsLeast(table, after);
    if limit > 0 && LeastIdAbove(table, after).Some? {
      var m := LeastIdAbove(table, after).value;
      var tier := WithId(table, m);
      LeastTier(table, after);
      FetchIsEmptyIffNothingAbove(table, after, limit);
      if |tier| < limit {
        var rest := Fetch(table, m, limit - |tier|);
        FetchIsComplete(table, m, limit - |tier|);
        FetchRowsAbove(table, m, limit - |tier|);
        TierThenRest(tier, rest, m);
        AfterTier(table, after, m, tier, rest, limit);
      } else {
        assert tier[0] in tier;
      }
    }
  }

  /** The recursive case of `Fetch`: the tier at the least id `m` above
      `after`, then what the query returns above `m`. */
  lemma AfterTier(table: seq<SourceRow>, after: int, m: int, tier: seq<SourceRow>, rest: seq<SourceRow>, limit: nat)
    requires IsLeastIdAbove(table, after, m)
    requires 0 < |tier| < limit
    requires IsTier(table, m, tier)
    requires |rest| <= limit - |tier|
    requires RowsAbove(table, m, rest)
    requires NoneSkipped(table, m, rest)
    requires |rest| < limit - |tier| ==> HoldsAllAbove(table, m, rest)
    requires forall row :: row in tier + rest <==> row in tier || row in rest
    requires (tier + rest)[|tier + rest| - 1].id == if |rest| > 0 then rest[|rest| - 1].id else m
    ensures NoneSkipped(table, after, tier + rest)
    ensures |tier + rest| < limit ==> HoldsAllAbove(table, after, tier + rest)
  {
  }

  /** `df["id"].max()`. `MaxIdIsMax` states that it is the largest id. */
  function MaxId(b: seq<SourceRow>): int
    requires |b| > 0
  {
    if |b| == 1 then b[0].id
    else
      var rest := MaxId(b[1..]);
      if b[0].id > rest then b[0].id else rest
  }

  /** `MaxId` is the id of one of the rows, and no row carries a larger
      one. */
  lemma {:induction false} MaxIdIsMax(b: seq<SourceRow>)
    requires |b| > 0
    ensures exists k :: 0 <= k < |b| && b[k].id == MaxId(b)
    ensures IdsAtMost(b, MaxId(b))
  {
    if |b| > 1 {
      MaxIdIsMax(b[1..]);
      assert forall k :: 1 <= k < |b| ==> b[k] == b[1..][k - 1];
      if b[0].id <= MaxId(b[1..]) {
        var k :| 0 <= k < |b| - 1 && b[1..][k].id == MaxId(b[1..]);
        assert b[k + 1].id == MaxId(b);
      } else {
        assert b[0].id == MaxId(b);
      }
    } else {
      assert b[0].id == MaxId(b);
    }
  }

  // ---------------------------------------------------------------------
  // One pull.
  // ---------------------------------------------------------------------

  /** A row as `SELECT *` returns it, `id` included. */
  function Record(r: SourceRow): Row {
    r.cells[IdColumn := Num(r.id)]
  }

  /** `df.drop(columns=["id", "created_at"], errors="ignore")` on one row:
      those two columns go, every other column keeps its value. */
  function Strip(r: SourceRow): (out: Row)
    ensures IdColumn !in out && CreatedAtColumn !in out
    ensures forall k :: k in Record(r) && k != IdColumn && k != CreatedAtColumn ==>
                          k in out && out[k] == Record(r)[k]
    ensures forall k :: k in out ==> k in Record(r)
  {
    Record(r) - {IdColumn, CreatedAtColumn}
  }

  lemma SameIdSameRow(table: seq<SourceRow>, a: SourceRow, b: SourceRow)
    requires UniqueIds(table) && a in table && b in table && a.id == b.id
    ensures a == b
  {
    var i :| 0 <= i < |table| && table[i] == a;
    var j :| 0 <= j < |table| && table[j] == b;
    assert IdAt(table, i) == IdAt(table, j);
  }

  /** One pull on the cursor's value: the next cursor value and the rows
      fetched. The cursor moves to the largest id fetched, so it strictly
      increases when something is fetched and stays put otherwise; every
      fetched row lies between the two cursor values, and with unique ids
      every row between them is fetched. */
  function Step(table: seq<SourceRow>, last: int): (r: (int, seq<SourceRow>))
    ensures |r.1| <= MicroBatchSize
  {
    var batch := Fetch(table, last, MicroBatchSize);
    if |batch| == 0 then (last, []) else (MaxId(batch), batch)
  }

  /** One step finds nothing exactly when no row lies above the cursor,
      and then leaves the cursor where it was; otherwise the cursor moves
      up to the id of the last row fetched. */
  lemma StepAdvances(table: seq<SourceRow>, last: int)
    ensures |Step(table, last).1| == 0 <==> NothingAbove(table, last)
    ensures |Step(table, last).1| == 0 ==> Step(table, last).0 == last
    ensures |Step(table, last).1| > 0 ==>
              && Step(table, last).0 > last
              && Step(table, last).0 == Step(table, last).1[|Step(table, last).1| - 1].id
  {
    FetchIsEmptyIffNothingAbove(table, last, MicroBatchSize);
    if |Fetch(table, last, MicroBatchSize)| > 0 {
      MaxIdIsLast(table, last);
    }
  }

  /** The largest id of a non-empty query result is the last row's, and it
      lies above `after`. */
  lemma MaxIdIsLast(table: seq<SourceRow>, after: int)
    requires |Fetch(table, after, MicroBatchSize)| > 0
    ensures var batch := Fetch(table, after, MicroBatchSize);
            MaxId(batch) > after && MaxId(batch) == batch[|batch| - 1].id
  {
    FetchIsAscending(table, after, MicroBatchSize);
    FetchRowsAbove(table, after, MicroBatchSize);
    MaxOfRunIsLast(table, after, Fetch(table, after, MicroBatchSize));
  }

  /** The largest id of a non-empty ascending run of rows above `after` is
      its last row's, and it lies above `after`. */
  lemma MaxOfRunIsLast(table: seq<SourceRow>, after: int, batch: seq<SourceRow>)
    requires |batch| > 0 && RowsAbove(table, after, batch) && Ascending(batch)
    ensures MaxId(batch) > after && MaxId(batch) == batch[|batch| - 1].id
  {
    MaxIdIsMax(batch);
    var k :| 0 <= k < |batch| && batch[k].id == MaxId(batch);
    if k < |batch| - 1 {
      assert IdAt(batch, k) <= IdAt(batch, |batch| - 1);
    }
  }

  /** One step sweeps the interval between the two cursor values: every row
      it fetches lies in it, and with unique ids every row in it is
      fetched. */
  lemma StepSweeps(table: seq<SourceRow>, last: int)
    ensures Within(table, last, Step(table, last).0, Step(table, last).1)
    ensures UniqueIds(table) ==> Covers(table, last, Step(table, last).0, Step(table, last).1)
  {
    var batch := Fetch(table, last, MicroBatchSize);
    if |batch| > 0 {
      FetchIsComplete(table, last, MicroBatchSize);
      FetchIsAscending(table, last, MicroBatchSize);
      FetchRowsAbove(table, last, MicroBatchSize);
      MaxIdIsMax(batch);
      StepCovers(table, last, batch, MaxId(batch));
    }
  }

  /** An ascending run above `last` that skips nothing reaches exactly up
      to its largest id, and with unique ids it holds every row up to
      there. */
  lemma StepCovers(table: seq<SourceRow>, last: int, batch: seq<SourceRow>, next: int)
    requires |batch| > 0 && RowsAbove(table, last, batch) && Ascending(batch)
    requires NoneSkipped(table, last, batch)
    requires (exists k :: 0 <= k < |batch| && batch[k].id == next)
    requires IdsAtMost(batch, next)
    ensures next == batch[|batch| - 1].id
    ensures Within(table, last, next, batch)
    ensures UniqueIds(table) ==> Covers(table, last, next, batch)
  {
    var k :| 0 <= k < |batch| && batch[k].id == next;
    if k < |batch| - 1 {
      assert IdAt(batch, k) <= IdAt(batch, |batch| - 1);
    }
    if UniqueIds(table) {
      CoversUpToLast(table, last, batch);
    }
  }

  /** With unique ids, a run that skips nothing below its last id holds
      every row up to and including that id. */
  lemma CoversUpToLast(table: seq<SourceRow>, last: int, batch: seq<SourceRow>)
    requires UniqueIds(table)
    requires |batch| > 0 && batch[|batch| - 1] in table
    requires NoneSkipped(table, last, batch)
    ensures Covers(table, last, batch[|batch| - 1].id, batch)
  {
    var top := batch[|batch| - 1];
    forall k | 0 <= k < |table| && last < table[k].id <= top.id ensures table[k] in batch {
      if table[k].id == top.id {
        SameIdSameRow(table, table[k], top);
      }
    }
  }

  /** The result of `pull_batch`: the state after the transaction commits,
      and the returned frame (`None` when there was nothing new). */
  datatype Pulled = Pulled(db: Db, batch: Option<seq<Row>>)

  /** `pull_batch()`, as one atomic transition. An unreadable cursor raises
      and the transaction rolls back, leaving the state as it was. Otherwise
      the cursor record exists afterwards, the table is untouched, and:
      with nothing above the cursor the result is `None` and the cursor
      keeps its value (a missing record is still created as "0"); with new
      rows the result holds between 1 and `MicroBatchSize` of them without
      `id` and `created_at`, and the cursor now reads as the largest id
      fetched, strictly above its old value. */
  function PullBatch(db: Db): (r: Result<Pulled, PullError>)
    ensures r.Err? <==> CursorValue(db.cursor).None?
    ensures r.Ok? ==>
      var last := CursorValue(db.cursor).value;
      var (next, fetched) := Step(db.table, last);
      && r.value.db.table == db.table
      && r.value.db.cursor.Some?
      && CursorValue(r.value.db.cursor) == Some(next)
      && (r.value.batch.None? <==> NothingAbove(db.table, last))
      && (r.value.batch.None? ==> r.value.db.cursor == (if db.cursor.None? then Some("0") else db.cursor))
      && (r.value.batch.Some? ==>
            && r.value.batch.value == Map(Strip, fetched)
            && 1 <= |r.value.batch.value| <= MicroBatchSize
            && next > last)
  {
    match GetLastProcessedId(db.cursor)
    case Err(e) => Err(e)
    case Ok((stored, last)) =>
      var (next, fetched) := Step(db.table, last);
      StepAdvances(db.table, last);
      if |fetched| == 0 then Ok(Pulled(Db(stored, db.table), None))
      else Ok(Pulled(Db(UpdateLastProcessedId(stored, next), db.table), Some(Map(Strip, fetched))))
  }

  /** A returned frame never carries the `id` or `created_at` column. */
  lemma PullBatchDropsBookkeeping(db: Db)
    requires PullBatch(db).Ok? && PullBatch(db).value.batch.Some?
    ensures forall k :: 0 <= k < |PullBatch(db).value.batch.value| ==>
              IdColumn !in PullBatch(db).value.batch.value[k] && CreatedAtColumn !in PullBatch(db).value.batch.value[k]
  {
  }

  // ---------------------------------------------------------------------
  // Successive pulls.
  // ---------------------------------------------------------------------

  /** The rows one pull hands downstream (none for `None`). */
  function Delivered(p: Pulled): seq<Row> {
    if p.batch.Some? then p.batch.value else []
  }

  /** On a readable cursor one pull succeeds, hands downstream the rows one
      step fetches, stripped, and leaves the cursor at the step's value. */
  lemma PullBatchFollowsStep(db: Db)
    requires CursorValue(db.cursor).Some?
    ensures PullBatch(db).Ok?
    ensures PullBatch(db).value.db.table == db.table
    ensures CursorValue(PullBatch(db).value.db.cursor) == Some(Step(db.table, CursorValue(db.cursor).value).0)
    ensures Delivered(PullBatch(db).value) == Map(Strip, Step(db.table, CursorValue(db.cursor).value).1)
  {
  }

  /** `n` pulls in a row: the final state and every row returned, in order.
      The first error stops the run. */
  function PullMany(db: Db, n: nat): (r: Result<(Db, seq<Row>), PullError>)
    ensures r.Ok? ==> r.value.0.table == db.table
    decreases n
  {
    if n == 0 then Ok((db, []))
    else
      match PullBatch(db)
      case Err(e) => Err(e)
      case Ok(p) =>
        match PullMany(p.db, n - 1)
        case Err(e) => Err(e)
        case Ok((final, rest)) => Ok((final, Delivered(p) + rest))
  }

  /** `n` applications of a cursor step: the final cursor value and the
      rows fetched, in order. */
  function Iterate(step: int -> (int, seq<SourceRow>), last: int, n: nat): (int, seq<SourceRow>)
    decreases n
  {
    if n == 0 then (last, [])
    else
      var rest := Iterate(step, step(last).0, n - 1);
      (rest.0, step(last).1 + rest.1)
  }

  /** `Step` on one table, as a function of the cursor's value. */
  function StepOn(table: seq<SourceRow>): int -> (int, seq<SourceRow>) {
    last => Step(table, last)
  }

  /** `n` steps on the cursor's value alone: the final value and the rows
      fetched, in order. */
  function Drain(table: seq<SourceRow>, last: int, n: nat): (int, seq<SourceRow>) {
    Iterate(StepOn(table), last, n)
  }

  /** One step of `Drain`. */
  lemma DrainUnfold(table: seq<SourceRow>, last: int, n: nat)
    requires n > 0
    ensures Drain(table, last, n).0 == Drain(table, Step(table, last).0, n - 1).0
    ensures Drain(table, last, n).1 == Step(table, last).1 + Drain(table, Step(table, last).0, n - 1).1
  {
  }

  /** One pull of `PullMany`, when it and the rest succeed. */
  lemma PullManyUnfold(db: Db, n: nat)
    requires n > 0 && PullBatch(db).Ok? && PullMany(PullBatch(db).value.db, n - 1).Ok?
    ensures PullMany(db, n).Ok?
    ensures PullMany(db, n).value.0 == PullMany(PullBatch(db).value.db, n - 1).value.0
    ensures PullMany(db, n).value.1 == Delivered(PullBatch(db).value) + PullMany(PullBatch(db).value.db, n - 1).value.1
  {
  }

  lemma MapAppend<A, B>(f: A -> B, a: seq<A>, b: seq<A>)
    ensures Map(f, a + b) == Map(f, a) + Map(f, b)
  {
    assert Map(f, a + b) == Map(f, a) + Map(f, b) by {
      assert |Map(f, a + b)| == |Map(f, a) + Map(f, b)|;
      forall k | 0 <= k < |a + b| ensures Map(f, a + b)[k] == (Map(f, a) + Map(f, b))[k] {
        if k < |a| { assert (a + b)[k] == a[k]; } else { assert (a + b)[k] == b[k - |a|]; }
      }
    }
  }

  /** Once the cursor is readable, `n` pulls never fail, and they return
      exactly the rows `n` steps on its value fetch, stripped, leaving the
      cursor at the final value. */
  lemma {:induction false} PullManyFollowsDrain(db: Db, n: nat)
    requires CursorValue(db.cursor).Some?
    ensures PullMany(db, n).Ok?
    ensures CursorValue(PullMany(db, n).value.0.cursor) == Some(Drain(db.table, CursorValue(db.cursor).value, n).0)
    ensures PullMany(db, n).value.1 == Map(Strip, Drain(db.table, CursorValue(db.cursor).value, n).1)
    decreases n
  {
    if n > 0 {
      PullBatchFollowsStep(db);
      var p := PullBatch(db).value;
      var step := Step(db.table, CursorValue(db.cursor).value);
      PullManyFollowsDrain(p.db, n - 1);
      var rest := Drain(db.table, step.0, n - 1);
      PullManyUnfold(db, n);
      DrainUnfold(db.table, CursorValue(db.cursor).value, n);
      MapAppend(Strip, step.1, rest.1);
    }
  }

  /** How many rows of the table lie above `after`. */
  function CountAbove(table: seq<SourceRow>, after: int): (c: nat)
    ensures c <= |table|
    ensures c == 0 <==> NothingAbove(table, after)
  {
    if |table| == 0 then 0
    else
      assert forall row :: row in table <==> row == table[0] || row in table[1..];
      (if table[0].id > after then 1 else 0) + CountAbove(table[1..], after)
  }

  /** Raising the threshold past some row's id strictly lowers the count. */
  lemma {:induction false} CountAboveDrops(table: seq<SourceRow>, a: int, b: int, row: SourceRow)
    requires a <= b && row in table && a < row.id <= b
    ensures CountAbove(table, b) < CountAbove(table, a)
  {
    assert forall r :: r in table <==> r == table[0] || r in table[1..];
    if table[0] == row {
      CountAboveMono(table[1..], a, b);
    } else {
      CountAboveDrops(table[1..], a, b, row);
    }
  }

  lemma {:induction false} CountAboveMono(table: seq<SourceRow>, a: int, b: int)
    requires a <= b
    ensures CountAbove(table, b) <= CountAbove(table, a)
  {
    if |table| > 0 {
      CountAboveMono(table[1..], a, b);
    }
  }

  lemma NoMemberIsEmpty(s: seq<SourceRow>)
    ensures (forall row :: row !in s) ==> |s| == 0
  {
    if |s| > 0 {
      assert s[0] in s;
    }
  }

  /** With unique ids, every tier has at most one row. */
  lemma {:induction false} TierIsSingle(table: seq<SourceRow>, id: int)
    requires UniqueIds(table)
    ensures |WithId(table, id)| <= 1
  {
    if |table| > 0 {
      assert UniqueIds(table[1..]) by {
        forall i, j | 0 <= i < j < |table[1..]| ensures IdAt(table[1..], i) != IdAt(table[1..], j) {
          assert IdAt(table[1..], i) == IdAt(table, i + 1) && IdAt(table[1..], j) == IdAt(table, j + 1);
        }
      }
      TierIsSingle(table[1..], id);
      if table[0].id == id {
        forall row | row in table[1..] ensures row.id != id {
          var j :| 0 <= j < |table[1..]| && table[1..][j] == row;
          assert table[j + 1] == row && IdAt(table, 0) != IdAt(table, j + 1);
        }
        WithIdIsTier(table[1..], id);
        NoMemberIsEmpty(WithId(table[1..], id));
      }
    }
  }

  /** Every row of `a` has an id at most `x`. */
  predicate IdsAtMost(a: seq<SourceRow>, x: int) {
    forall k :: 0 <= k < |a| ==> a[k].id <= x
  }

  /** Every row of `b` has an id above `x`. */
  predicate IdsAbove(b: seq<SourceRow>, x: int) {
    forall k :: 0 <= k < |b| ==> b[k].id > x
  }

  /** Two strictly ascending runs, the first at or below `x` and the second
      above it, join into a strictly ascending run. */
  lemma {:induction false} JoinStrictlyAscending(a: seq<SourceRow>, b: seq<SourceRow>, x: int)
    requires StrictlyAscending(a) && StrictlyAscending(b)
    requires IdsAtMost(a, x) && IdsAbove(b, x)
    ensures StrictlyAscending(a + b)
  {
    if |a| == 0 {
      assert a + b == b;
    } else {
      assert (a + b)[1..] == a[1..] + b;
      assert IdsAtMost(a[1..], x) by {
        forall k | 0 <= k < |a[1..]| ensures a[1..][k].id <= x {
          assert a[1..][k] == a[k + 1];
        }
      }
      JoinStrictlyAscending(a[1..], b, x);
      if |a| == 1 && |b| > 0 {
        assert (a + b)[1] == b[0];
      }
    }
  }

  /** With unique ids, a query's result is strictly ascending. */
  lemma {:induction false} FetchStrictlyAscending(table: seq<SourceRow>, after: int, limit: nat)
    requires UniqueIds(table)
    ensures StrictlyAscending(Fetch(table, after, limit))
    decreases limit
  {
    if limit > 0 && LeastIdAbove(table, after).Some? {
      var m := LeastIdAbove(table, after).value;
      var tier := WithId(table, m);
      FetchUnfold(table, after, limit);
      TierIsSingle(table, m);
      if |tier| < limit {
        var rest := Fetch(table, m, limit - |tier|);
        FetchStrictlyAscending(table, m, limit - |tier|);
        FetchIdsAbove(table, m, limit - |tier|);
        assert IdsAtMost(tier, m);
        JoinStrictlyAscending(tier, rest, m);
      } else {
        assert tier[..limit] == tier;
      }
    }
  }

  /** With unique ids, one step fetches its rows in strictly ascending id
      order. */
  lemma StepStrictlyAscending(table: seq<SourceRow>, last: int)
    requires UniqueIds(table)
    ensures StrictlyAscending(Step(table, last).1)
  {
    FetchStrictlyAscending(table, last, MicroBatchSize);
  }

  /** Rows within `(x, y]` and rows within `(y, z]` are rows within
      `(x, z]`. */
  lemma JoinWithin(table: seq<SourceRow>, x: int, y: int, z: int, a: seq<SourceRow>, b: seq<SourceRow>)
    requires x <= y <= z
    requires Within(table, x, y, a) && Within(table, y, z, b)
    ensures Within(table, x, z, a + b)
  {
  }

  /** Rows covering `(x, y]` and rows covering `(y, z]` cover `(x, z]`. */
  lemma JoinCovers(table: seq<SourceRow>, x: int, y: int, z: int, a: seq<SourceRow>, b: seq<SourceRow>)
    requires x <= y <= z
    requires Covers(table, x, y, a) && Covers(table, y, z, b)
    ensures Covers(table, x, z, a + b)
  {
    assert forall row :: row in a + b <==> row in a || row in b;
  }

  /** A step that never moves the cursor down and fetches only rows
      between the two cursor values, iterated: the cursor never moves down
      and every row fetched lies between the first and the last value. */
  lemma {:induction false} IterateWithin(table: seq<SourceRow>, f: int -> (int, seq<SourceRow>), start: int, n: nat)
    requires forall x :: f(x).0 >= x && Within(table, x, f(x).0, f(x).1)
    ensures Iterate(f, start, n).0 >= start
    ensures Within(table, start, Iterate(f, start, n).0, Iterate(f, start, n).1)
    decreases n
  {
    if n > 0 {
      var step := f(start);
      var rest := Iterate(f, step.0, n - 1);
      IterateWithin(table, f, step.0, n - 1);
      JoinWithin(table, start, step.0, rest.0, step.1, rest.1);
    }
  }

  /** A step that never moves the cursor down and fetches every row between
      the two cursor values, iterated, fetches every row between the first
      and the last value. */
  lemma {:induction false} IterateCovers(table: seq<SourceRow>, f: int -> (int, seq<SourceRow>), start: int, n: nat)
    requires forall x :: f(x).0 >= x && Covers(table, x, f(x).0, f(x).1)
    ensures Iterate(f, start, n).0 >= start
    ensures Covers(table, start, Iterate(f, start, n).0, Iterate(f, start, n).1)
    decreases n
  {
    if n > 0 {
      var step := f(start);
      var rest := Iterate(f, step.0, n - 1);
      IterateCovers(table, f, step.0, n - 1);
      JoinCovers(table, start, step.0, rest.0, step.1, rest.1);
    }
  }

  /** A step that fetches a strictly ascending run between the two cursor
      values, iterated, fetches a strictly ascending run above the first
      value. */
  lemma {:induction false} IterateStrictlyAscending(f: int -> (int, seq<SourceRow>), start: int, n: nat)
    requires forall x :: && f(x).0 >= x && StrictlyAscending(f(x).1)
                         && IdsAbove(f(x).1, x) && IdsAtMost(f(x).1, f(x).0)
    ensures StrictlyAscending(Iterate(f, start, n).1) && IdsAbove(Iterate(f, start, n).1, start)
    decreases n
  {
    if n > 0 {
      var step := f(start);
      var rest := Iterate(f, step.0, n - 1);
      IterateStrictlyAscending(f, step.0, n - 1);
      JoinStrictlyAscending(step.1, rest.1, step.0);
      JoinIdsAbove(step.1, rest.1, start, step.0);
    }
  }

  /** Ids above `x` followed by ids above `y >= x` are ids above `x`. */
  lemma JoinIdsAbove(a: seq<SourceRow>, b: seq<SourceRow>, x: int, y: int)
    requires x <= y && IdsAbove(a, x) && IdsAbove(b, y)
    ensures IdsAbove(a + b, x)
  {
  }

  /** A step that lowers the number of rows above the cursor whenever it
      fetches something, and leaves none above it otherwise, iterated at
      least that number of times, leaves no row above the cursor. */
  lemma {:induction false} IterateExhausts(table: seq<SourceRow>, f: int -> (int, seq<SourceRow>), start: int, n: nat)
    requires forall x :: && (|f(x).1| > 0 ==> CountAbove(table, f(x).0) < CountAbove(table, x))
                         && (|f(x).1| == 0 ==> CountAbove(table, f(x).0) == 0)
    requires n >= CountAbove(table, start)
    ensures NothingAbove(table, Iterate(f, start, n).0)
    decreases n
  {
    if n > 0 {
      IterateExhausts(table, f, f(start).0, n - 1);
    }
  }

  /** `n` steps from `start` sweep an interval `(start, final]`: every row
      fetched lies in it and, with unique ids, every row in it is fetched. */
  lemma DrainSweeps(table: seq<SourceRow>, start: int, n: nat)
    ensures Drain(table, start, n).0 >= start
    ensures Within(table, start, Drain(table, start, n).0, Drain(table, start, n).1)
    ensures UniqueIds(table) ==> Covers(table, start, Drain(table, start, n).0, Drain(table, start, n).1)
  {
    var f := StepOn(table);
    forall x ensures f(x).0 >= x && Within(table, x, f(x).0, f(x).1) {
      StepAdvances(table, x);
      StepSweeps(table, x);
    }
    IterateWithin(table, f, start, n);
    if UniqueIds(table) {
      forall x ensures f(x).0 >= x && Covers(table, x, f(x).0, f(x).1) {
        StepAdvances(table, x);
        StepSweeps(table, x);
      }
      IterateCovers(table, f, start, n);
    }
  }

  /** With unique ids, `n` steps fetch their rows in strictly ascending id
      order. */
  lemma DrainStrictlyAscending(table: seq<SourceRow>, start: int, n: nat)
    requires UniqueIds(table)
    ensures StrictlyAscending(Drain(table, start, n).1)
  {
    var f := StepOn(table);
    forall x ensures && f(x).0 >= x && StrictlyAscending(f(x).1)
                     && IdsAbove(f(x).1, x) && IdsAtMost(f(x).1, f(x).0) {
      StepAdvances(table, x);
      StepStrictlyAscending(table, x);
      StepIdBounds(table, x);
    }
    IterateStrictlyAscending(f, start, n);
  }

  /** One step's ids lie between the two cursor values. */
  lemma StepIdBounds(table: seq<SourceRow>, start: int)
    ensures IdsAbove(Step(table, start).1, start)
    ensures IdsAtMost(Step(table, start).1, Step(table, start).0)
  {
    StepSweeps(table, start);
    WithinBounds(table, start, Step(table, start).0, Step(table, start).1);
  }

  lemma WithinBounds(table: seq<SourceRow>, lo: int, hi: int, b: seq<SourceRow>)
    requires Within(table, lo, hi, b)
    ensures IdsAtMost(b, hi) && IdsAbove(b, lo)
  {
  }

  /** Once `n` is at least the number of rows above `start`, `n` steps reach
      past every row of the table. */
  lemma DrainExhausts(table: seq<SourceRow>, start: int, n: nat)
    requires n >= CountAbove(table, start)
    ensures NothingAbove(table, Drain(table, start, n).0)
  {
    var f := StepOn(table);
    forall x ensures && (|f(x).1| > 0 ==> CountAbove(table, f(x).0) < CountAbove(table, x))
                     && (|f(x).1| == 0 ==> CountAbove(table, f(x).0) == 0) {
      StepLowersCount(table, x);
    }
    IterateExhausts(table, f, start, n);
  }

  /** A step that fetches something lowers the number of rows above the
      cursor; one that fetches nothing leaves none above it. */
  lemma StepLowersCount(table: seq<SourceRow>, start: int)
    ensures |Step(table, start).1| > 0 ==> CountAbove(table, Step(table, start).0) < CountAbove(table, start)
    ensures |Step(table, start).1| == 0 ==> CountAbove(table, Step(table, start).0) == 0
  {
    var step := Step(table, start);
    StepAdvances(table, start);
    if |step.1| > 0 {
      StepSweeps(table, start);
      assert step.1[0] in table;
      CountAboveDrops(table, start, step.0, step.1[0]);
    }
  }

  /** After a pull that found nothing new, the next pull finds nothing new
      either and changes nothing. */
  lemma PullAfterEmptyIsEmpty(db: Db)
    requires PullBatch(db).Ok? && PullBatch(db).value.batch.None?
    ensures PullBatch(PullBatch(db).value.db) == PullBatch(db)
  {
  }

  /** Starting from any readable cursor over a table with unique ids, as
      many pulls as the table has rows hand downstream every row above the
      cursor exactly once, in id order, and leave the cursor at or above
      every id in the table. */
  lemma SuccessivePullsDeliverEachRowOnce(db: Db, n: nat)
    requires UniqueIds(db.table) && CursorValue(db.cursor).Some?
    requires n >= |db.table|
    ensures PullMany(db, n).Ok?
    ensures var start := CursorValue(db.cursor).value;
            exists rows :: && PullMany(db, n).value.1 == Map(Strip, rows)
                           && StrictlyAscending(rows)
                           && RowsAbove(db.table, start, rows)
                           && HoldsAllAbove(db.table, start, rows)
    ensures CursorValue(PullMany(db, n).value.0.cursor).Some?
    ensures NothingAbove(db.table, CursorValue(PullMany(db, n).value.0.cursor).value)
  {
    var start := CursorValue(db.cursor).value;
    PullManyFollowsDrain(db, n);
    DrainSweeps(db.table, start, n);
    DrainStrictlyAscending(db.table, start, n);
    DrainExhausts(db.table, start, n);
    var (final, rows) := Drain(db.table, start, n);
    SweepToTheEnd(db.table, start, final, rows);
    assert PullMany(db, n).value.1 == Map(Strip, rows);
  }

  /** A sweep `(start, final]` with nothing above `final` holds exactly the
      rows above `start`. */
  lemma SweepToTheEnd(table: seq<SourceRow>, start: int, final: int, rows: seq<SourceRow>)
    requires Within(table, start, final, rows) && Covers(table, start, final, rows)
    requires NothingAbove(table, final)
    ensures RowsAbove(table, start, rows) && HoldsAllAbove(table, start, rows)
  {
  }

  /** Eleven distinct rows that all carry id 1. */
  const SharedIdTable: seq<SourceRow> := seq(11, k => SourceRow(1, map["quantity" := Num(k)]))

  lemma {:induction false} OneTierTakesAll(table: seq<SourceRow>, m: int)
    requires forall k :: 0 <= k < |table| ==> table[k].id == m
    ensures WithId(table, m) == table
  {
    if |table| > 0 {
      OneTierTakesAll(table[1..], m);
      assert [table[0]] + table[1..] == table;
    }
  }

  /** Unique ids are needed: when more rows share an id than one pull takes,
      the first pull stops inside the tie and moves the cursor to that id,
      and the rows left over are never delivered. */
  lemma DuplicateIdsAreSkipped()
    ensures Step(SharedIdTable, 0).1 == SharedIdTable[..MicroBatchSize]
    ensures Step(SharedIdTable, 0).0 == 1
    ensures SharedIdTable[10] !in Step(SharedIdTable, 0).1
    ensures Step(SharedIdTable, 1).1 == []
  {
    var t := SharedIdTable;
    assert t[0] in t;
    OneTierTakesAll(t, 1);
    assert LeastIdAbove(t, 0) == Some(1);
    assert Fetch(t, 0, MicroBatchSize) == t[..10];
    forall k | 0 <= k < 10 ensures t[..10][k] != t[10] {
      assert t[k].cells["quantity"] != t[10].cells["quantity"];
    }
    StepAdvances(t, 0);
    StepAdvances(t, 1);
  }

  // ---------------------------------------------------------------------
  // Consecutive ids.
  // ---------------------------------------------------------------------

  /** Row `k` carries id `first + k`. */
  predicate ConsecutiveIds(table: seq<SourceRow>, first: int) {
    forall k :: 0 <= k < |table| ==> table[k].id == first + k
  }

  /** On consecutive ids, the rows carrying the id right above `after` form
      a single row. */
  lemma ConsecutiveTier(table: seq<SourceRow>, first: int, after: int)
    requires ConsecutiveIds(table, first) && first <= after + 1 < first + |table|
    ensures LeastIdAbove(table, after) == Some(after + 1)
    ensures WithId(table, after + 1) == [table[after + 1 - first]]
  {
    var i := after + 1 - first;
    assert table[i].id == after + 1;
    LeastIdAboveIsLeast(table, after);
    ConsecutiveAreUnique(table, first);
    OnlyRowWithId(table, i);
  }

  lemma ConsecutiveAreUnique(table: seq<SourceRow>, first: int)
    requires ConsecutiveIds(table, first)
    ensures UniqueIds(table)
  {
  }

  /** With unique ids, the rows carrying a row's id are that row alone. */
  lemma OnlyRowWithId(table: seq<SourceRow>, i: nat)
    requires UniqueIds(table) && i < |table|
    ensures WithId(table, table[i].id) == [table[i]]
  {
    var tier := WithId(table, table[i].id);
    WithIdIsTier(table, table[i].id);
    TierIsSingle(table, table[i].id);
    assert table[i] in tier;
    assert tier[0] == table[i];
  }

  /** When the least id above `after` is carried by a single row, the
      query starts with that row and continues above its id. */
  lemma FetchSingleTier(table: seq<SourceRow>, after: int, row: SourceRow, limit: nat)
    requires limit > 0
    requires LeastIdAbove(table, after) == Some(row.id) && WithId(table, row.id) == [row]
    ensures Fetch(table, after, limit) == [row] + Fetch(table, row.id, limit - 1)
  {
    if limit == 1 {
      assert Fetch(table, row.id, 0) == [];
    }
  }

  /** On consecutive ids, the query above the id just below row `i` starts
      with row `i` and continues above its id. */
  lemma FetchConsecutiveStep(table: seq<SourceRow>, first: int, after: int, i: nat, limit: nat, j: nat)
    requires ConsecutiveIds(table, first) && i < |table| && after == first + i - 1 && limit > 0
    requires j == Min(i + limit, |table|)
    ensures table[i].id == first + (i + 1) - 1
    ensures i < j <= |table| && j == Min(i + 1 + (limit - 1), |table|)
    ensures Fetch(table, after, limit) == [table[i]] + Fetch(table, table[i].id, limit - 1)
  {
    ConsecutiveTier(table, first, after);
    FetchSingleTier(table, after, table[i], limit);
  }

  /** On consecutive ids, the query above the last id, or with no room
      left, is empty. */
  lemma FetchConsecutiveEnd(table: seq<SourceRow>, first: int, after: int, i: nat, limit: nat, j: nat)
    requires ConsecutiveIds(table, first) && i <= |table| && after == first + i - 1
    requires i == |table| || limit == 0
    requires j == Min(i + limit, |table|)
    ensures Fetch(table, after, limit) == table[i..j] == []
  {
    FetchIsEmptyIffNothingAbove(table, after, limit);
  }

  /** A row followed by the slice after it is the slice from that row. */
  lemma SliceCons(s: seq<SourceRow>, i: nat, j: nat, a: seq<SourceRow>, b: seq<SourceRow>)
    requires i < j <= |s| && a == [s[i]] + b && b == s[i + 1..j]
    ensures a == s[i..j]
  {
  }

  function Min(a: int, b: int): int {
    if a < b then a else b
  }

  /** On consecutive ids, the query above the id just below row `i`
      returns the contiguous slice from row `i`, cut at `limit` rows. */
  lemma {:induction false} FetchConsecutive(table: seq<SourceRow>, first: int, after: int, i: nat, limit: nat, j: nat)
    requires ConsecutiveIds(table, first) && i <= |table| && after == first + i - 1
    requires j == Min(i + limit, |table|)
    ensures Fetch(table, after, limit) == table[i..j]
    decreases limit
  {
    if i == |table| || limit == 0 {
      FetchConsecutiveEnd(table, first, after, i, limit, j);
    } else {
      FetchConsecutiveStep(table, first, after, i, limit, j);
      FetchConsecutive(table, first, table[i].id, i + 1, limit - 1, j);
      SliceCons(table, i, j, Fetch(table, after, limit), Fetch(table, table[i].id, limit - 1));
    }
  }


  /** Fifteen rows with ids 38 to 52. */
  const Rows38To52: seq<SourceRow> := seq(15, k => SourceRow(38 + k, map[]))

  /** From cursor 37 over ids 38 to 52, the first query returns ids 38 to
      47, the query above 47 returns ids 48 to 52, and the query above 52
      returns nothing. */
  lemma ThreeQueriesFrom37()
    ensures Fetch(Rows38To52, 37, MicroBatchSize) == Rows38To52[..10]
    ensures Fetch(Rows38To52, 47, MicroBatchSize) == Rows38To52[10..]
    ensures Fetch(Rows38To52, 52, MicroBatchSize) == []
  {
    var t := Rows38To52;
    assert ConsecutiveIds(t, 38);
    FetchConsecutive(t, 38, 37, 0, MicroBatchSize, 10);
    FetchConsecutive(t, 38, 47, 10, MicroBatchSize, 15);
    FetchConsecutive(t, 38, 52, 15, MicroBatchSize, 15);
  }

  /** The cursor record "37" reads as 37. */
  lemma Cursor37()
    ensures CursorValue(Some("37")) == Some(37)
  {
    Decimal.ParseShow(37);
    assert Decimal.Show(37) == "37";
  }

  /** A step whose query returns a non-empty run moves the cursor to the
      run's last id. */
  lemma StepOnRun(table: seq<SourceRow>, last: int, run: seq<SourceRow>)
    requires |run| > 0 && Fetch(table, last, MicroBatchSize) == run
    ensures Step(table, last) == (run[|run| - 1].id, run)
  {
    StepAdvances(table, last);
  }

  /** Three steps from 37 over ids 38 to 52 move the cursor to 47, then to
      52, then leave it there, fetching ids 38 to 47 and then 48 to 52. */
  lemma DrainFrom37()
    ensures Drain(Rows38To52, 37, 3) == (52, Rows38To52[..10] + Rows38To52[10..])
  {
    var t := Rows38To52;
    ThreeQueriesFrom37();
    StepOnRun(t, 37, t[..10]);
    assert t[..10][9].id == 47;
    StepOnRun(t, 47, t[10..]);
    assert t[10..][4].id == 52;
    assert Step(t, 52) == (52, []);
    assert Drain(t, 52, 0) == (52, []);
    DrainUnfold(t, 52, 1);
    assert Drain(t, 52, 1) == (52, []);
    DrainUnfold(t, 47, 2);
    assert t[10..] + [] == t[10..];
    assert Drain(t, 47, 2) == (52, t[10..]);
    DrainUnfold(t, 37, 3);
    assert Drain(t, 37, 3) == (52, t[..10] + t[10..]);
  }

  /** Three pulls from a cursor record reading "37" over ids 38 to 52: they
      deliver ids 38 to 47 and then ids 48 to 52, stripped, and leave the
      cursor reading 52. */
  lemma ThreePullsFrom37()
    ensures PullMany(Db(Some("37"), Rows38To52), 3).Ok?
    ensures PullMany(Db(Some("37"), Rows38To52), 3).value.1
            == Map(Strip, Rows38To52[..10]) + Map(Strip, Rows38To52[10..])
    ensures CursorValue(PullMany(Db(Some("37"), Rows38To52), 3).value.0.cursor) == Some(52)
  {
    Cursor37();
    PullManyFollowsDrain(Db(Some("37"), Rows38To52), 3);
    DrainFrom37();
    MapAppend(Strip, Rows38To52[..10], Rows38To52[10..]);
  }
}
