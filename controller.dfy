/**
 * The two entry points of the employee sync controller. Each checks the
 * decoded body, snapshots the existing keys, runs the classification loop,
 * appends the log entry and only then writes the table.
 */
module EmployeeSync {
  import opened Php
  import opened RowMapping
  import opened Reconcile
  import opened Directory
  import opened Writes

  const PayloadError := "Payload must be a JSON array of objects."

  /** The `details` object; `updated` is present only in sync responses. */
  datatype Details = Details(
    created: seq<string>,
    updated: Option<seq<string>>,
    skipped: seq<Skip>,
    missing: seq<string>)

  /** The JSON response: status 422 with a message, or status ok with the summary. */
  datatype Response = Unprocessable(message: string) | Ok(summary: Summary, details: Details)

  /**
   * `initialize`: replace mode. A body that is not an array is refused with
   * nothing logged or written. Otherwise the summary is logged, the table is
   * truncated and the accepted rows are inserted, in that order.
   */
  method Initialize(db: Database, payload: Value, parse: DateParser) returns (resp: Response)
    modifies db
    ensures !payload.Arr? ==> resp == Unprocessable(PayloadError) && unchanged(db)
    ensures payload.Arr? ==>
              var existing := Keys(old(db.employees));
              var acc := Classify(NormalizeAll(payload.entries, parse), existing, Mode.Initialize);
              && resp == Ok(SummaryOf(acc, existing, Mode.Initialize),
                            Details(acc.created, None, acc.skipped, Missing(acc, existing, Mode.Initialize)))
              && db.syncLogs == old(db.syncLogs) + [LogEntry(payload, resp.summary)]
              && db.employees == InsertedRows(acc.rows)
              && db.journal == old(db.journal) + [Logged(LogEntry(payload, resp.summary)), Wrote(Truncated)]
                               + InsertWrites(acc.rows)
  {
    if !payload.Arr? {
      return Unprocessable(PayloadError);
    }
    var existing := Keys(db.employees);
    var rows := NormalizeAll(payload.entries, parse);
    var acc := ClassifyRows(rows, existing, Mode.Initialize);
    var missing := Diff(existing, acc.seen);
    var summary := Summary(Mode.Initialize, acc.createdCount, 0, acc.skippedCount, missing);
    var entry := LogEntry(payload, summary);
    ghost var before := db.journal;
    db.AppendLog(entry);
    db.Truncate();
    assert db.journal == before + [Logged(entry), Wrote(Truncated)];
    InsertBatch(db, acc.rows);
    assert [] + InsertedRows(acc.rows) == InsertedRows(acc.rows);
    resp := Ok(summary, Details(acc.created, None, acc.skipped, missing));
  }

  /** The transaction of `initialize`: one insert per accepted row, in order. */
  method InsertBatch(db: Database, rows: seq<Prepared>)
    modifies db
    ensures db.employees == old(db.employees) + InsertedRows(rows)
    ensures db.syncLogs == old(db.syncLogs)
    ensures db.journal == old(db.journal) + InsertWrites(rows)
  {
    var i := 0;
    while i < |rows|
      invariant 0 <= i <= |rows|
      invariant db.employees == old(db.employees) + InsertedRows(rows[..i])
      invariant db.syncLogs == old(db.syncLogs)
      invariant db.journal == old(db.journal) + InsertWrites(rows[..i])
    {
      assert rows[..i + 1][..i] == rows[..i];
      db.Insert(NewEmployee(rows[i]));
      i := i + 1;
    }
    assert rows[..i] == rows;
  }

  /**
   * `sync`: merge mode. A body that is not an array is refused with nothing
   * logged or written. Otherwise the summary is logged, then each accepted
   * row updates the rows with its key or is inserted, and finally the
   * missing keys are marked INACTIVE.
   */
  method Sync(db: Database, payload: Value, parse: DateParser) returns (resp: Response)
    modifies db
    ensures !payload.Arr? ==> resp == Unprocessable(PayloadError) && unchanged(db)
    ensures payload.Arr? ==>
              var existing := Keys(old(db.employees));
              var acc := Classify(NormalizeAll(payload.entries, parse), existing, Mode.Sync);
              var missing := Missing(acc, existing, Mode.Sync);
              && resp == Ok(SummaryOf(acc, existing, Mode.Sync), Details(acc.created, Some(acc.updated), acc.skipped, missing))
              && db.syncLogs == old(db.syncLogs) + [LogEntry(payload, resp.summary)]
              && db.employees == SyncedTable(old(db.employees), NormalizeAll(payload.entries, parse))
              && db.journal == old(db.journal) + [Logged(LogEntry(payload, resp.summary))]
                               + UpsertWrites(acc.rows, existing) + MarkWrites(missing)
  {
    if !payload.Arr? {
      return Unprocessable(PayloadError);
    }
    var existing := Keys(db.employees);
    var rows := NormalizeAll(payload.entries, parse);
    var acc := ClassifyRows(rows, existing, Mode.Sync);
    var missing := Diff(existing, acc.incoming);
    var summary := Summary(Mode.Sync, acc.createdCount, acc.updatedCount, acc.skippedCount, missing);
    var entry := LogEntry(payload, summary);
    db.AppendLog(entry);
    ApplyBatch(db, acc.rows, existing, missing);
    resp := Ok(summary, Details(acc.created, Some(acc.updated), acc.skipped, missing));
  }

  /**
   * The transaction of `sync`: each prepared row updates the rows with its
   * key when the key is in the snapshot and is inserted otherwise; then the
   * missing keys, if any, are marked INACTIVE.
   */
  method ApplyBatch(db: Database, rows: seq<Prepared>, existing: seq<string>, missing: seq<string>)
    modifies db
    ensures db.employees == MarkMissing(Upsert(old(db.employees), rows, existing), missing)
    ensures db.syncLogs == old(db.syncLogs)
    ensures db.journal == old(db.journal) + UpsertWrites(rows, existing) + MarkWrites(missing)
  {
    var i := 0;
    while i < |rows|
      invariant 0 <= i <= |rows|
      invariant db.employees == Upsert(old(db.employees), rows[..i], existing)
      invariant db.syncLogs == old(db.syncLogs)
      invariant db.journal == old(db.journal) + UpsertWrites(rows[..i], existing)
    {
      assert rows[..i + 1][..i] == rows[..i];
      var row := rows[i];
      if Updates(row, existing) {
        db.UpdateWhereEmpno(row.info.empno.value, row);
      } else {
        db.Insert(NewEmployee(row));
      }
      i := i + 1;
    }
    assert rows[..i] == rows;
    if |missing| > 0 {
      db.UpdateStatusWhereIn(missing, Inactive);
    }
  }
}
