/**
 * The two tables the controller touches: `get_employee_info`, one row per
 * employee (whose `empno` column is nullable and not unique), and the
 * append-only `employee_sync_logs`. The database also keeps a journal of
 * every write in the order it happened, so that "the log is written before
 * the table" can be stated.
 */
module Directory {
  import opened Php
  import opened RowMapping
  import opened Reconcile

  /**
   * A row of `get_employee_info`: the columns `mapRow` fills, plus the three
   * it never sets. The auto-increment id and the timestamps are not modelled.
   */
  datatype Employee = Employee(
    info: Mapped,
    password: Value,
    accountStatusName: Value,
    status: Option<string>)

  /** A row of `employee_sync_logs`: the payload and the summary, JSON-encoded. */
  datatype LogEntry = LogEntry(payload: Value, summary: Summary)

  /** A write to `get_employee_info`. */
  datatype Write =
    | Truncated
    | Inserted(row: Employee)
    | UpdatedWhere(key: string, prepared: Prepared)
    | StatusSetWhereIn(keys: seq<string>, status: string)

  datatype Event = Logged(entry: LogEntry) | Wrote(write: Write)

  /** `insert($row)`: the columns the row does not name are NULL. */
  function NewEmployee(p: Prepared): (e: Employee)
    ensures e.info == p.info && e.status == p.status
    ensures e.password == Null && e.accountStatusName == Null
  {
    Employee(p.info, Null, Null, p.status)
  }

  /**
   * `update($row)` on one matching row: every mapped column is overwritten,
   * `status_description` only when the row names it, the rest is kept.
   */
  function Refresh(e: Employee, p: Prepared): Employee {
    Employee(p.info, e.password, e.accountStatusName, if p.status.Some? then p.status else e.status)
  }

  /** `where('empno', k)->update($row)`: every row whose key is `k`. */
  function UpdateWhere(t: seq<Employee>, k: string, p: Prepared): seq<Employee> {
    seq(|t|, i requires 0 <= i < |t| => if t[i].info.empno == Some(k) then Refresh(t[i], p) else t[i])
  }

  /** `whereIn('empno', keys)->update(['status_description' => s])`. */
  function SetStatusWhereIn(t: seq<Employee>, keys: seq<string>, s: string): seq<Employee> {
    seq(|t|, i requires 0 <= i < |t| =>
      if t[i].info.empno.Some? && t[i].info.empno.value in keys then t[i].(status := Some(s)) else t[i])
  }

  /**
   * `pluck('empno')->filter()->values()->all()`: the keys of the table in
   * row order, without null, '' and '0', repeats kept.
   */
  function Keys(t: seq<Employee>): (r: seq<string>)
    ensures forall k :: k in r <==> !BlankId(Some(k)) && exists i :: 0 <= i < |t| && t[i].info.empno == Some(k)
    decreases |t|
  {
    if |t| == 0 then []
    else
      var n := |t| - 1;
      var last := t[n].info.empno;
      var r := Keys(t[..n]) + (if BlankId(last) then [] else [last.value]);
      assert forall i :: 0 <= i < n ==> t[..n][i] == t[i];
      r
  }

  /** The keys of two blocks of rows are the keys of each, in order. */
  lemma {:induction false} KeysAppend(a: seq<Employee>, b: seq<Employee>)
    ensures Keys(a + b) == Keys(a) + Keys(b)
    decreases |b|
  {
    if |b| == 0 {
      assert a + b == a;
    } else {
      var n := |b| - 1;
      assert (a + b)[..|a + b| - 1] == a + b[..n];
      KeysAppend(a, b[..n]);
    }
  }

  /** Appending a row appends its key, unless the key is blank. */
  lemma KeysSnoc(t: seq<Employee>, e: Employee)
    ensures Keys(t + [e]) == Keys(t) + (if BlankId(e.info.empno) then [] else [e.info.empno.value])
  {
    assert (t + [e])[..|t|] == t;
  }

  /** The keys of a table are those of its first `n` rows followed by those of the rest. */
  lemma KeysSplit(t: seq<Employee>, n: nat)
    requires n <= |t|
    ensures Keys(t) == Keys(t[..n]) + Keys(t[n..])
  {
    assert t == t[..n] + t[n..];
    KeysAppend(t[..n], t[n..]);
  }

  /** The key list depends only on each row's key. */
  lemma {:induction false} KeysSameEmpnos(a: seq<Employee>, b: seq<Employee>)
    requires |a| == |b|
    requires forall i :: 0 <= i < |a| ==> a[i].info.empno == b[i].info.empno
    ensures Keys(a) == Keys(b)
    decreases |a|
  {
    if |a| > 0 {
      KeysSameEmpnos(a[..|a| - 1], b[..|b| - 1]);
    }
  }

  /** `UpdateWhere` with a row carrying the same key changes no key. */
  lemma UpdateWhereKeepsKeys(t: seq<Employee>, k: string, p: Prepared)
    requires p.info.empno == Some(k)
    ensures |UpdateWhere(t, k, p)| == |t|
    ensures forall i :: 0 <= i < |t| ==> UpdateWhere(t, k, p)[i].info.empno == t[i].info.empno
    ensures Keys(UpdateWhere(t, k, p)) == Keys(t)
  {
    KeysSameEmpnos(UpdateWhere(t, k, p), t);
  }

  /** Setting a status changes no key and touches only rows whose key is listed. */
  lemma SetStatusKeepsKeys(t: seq<Employee>, keys: seq<string>, s: string)
    ensures |SetStatusWhereIn(t, keys, s)| == |t|
    ensures forall i :: 0 <= i < |t| ==> SetStatusWhereIn(t, keys, s)[i].info == t[i].info
    ensures Keys(SetStatusWhereIn(t, keys, s)) == Keys(t)
  {
    KeysSameEmpnos(SetStatusWhereIn(t, keys, s), t);
  }

  /** The database: the two tables and the journal of writes. */
  class Database {
    var employees: seq<Employee>
    var syncLogs: seq<LogEntry>
    ghost var journal: seq<Event>

    constructor(rows: seq<Employee>)
      ensures employees == rows && syncLogs == [] && journal == []
    {
      employees := rows;
      syncLogs := [];
      journal := [];
    }

    /** `DB::table('employee_sync_logs')->insert(...)`. */
    method AppendLog(entry: LogEntry)
      modifies this
      ensures syncLogs == old(syncLogs) + [entry]
      ensures employees == old(employees)
      ensures journal == old(journal) + [Logged(entry)]
    {
      syncLogs := syncLogs + [entry];
      journal := journal + [Logged(entry)];
    }

    /** `DB::table('get_employee_info')->truncate()`. */
    method Truncate()
      modifies this
      ensures employees == []
      ensures syncLogs == old(syncLogs)
      ensures journal == old(journal) + [Wrote(Truncated)]
    {
      employees := [];
      journal := journal + [Wrote(Truncated)];
    }

    /** `DB::table('get_employee_info')->insert($row)`: appends one row. */
    method Insert(e: Employee)
      modifies this
      ensures employees == old(employees) + [e]
      ensures syncLogs == old(syncLogs)
      ensures journal == old(journal) + [Wrote(Inserted(e))]
    {
      employees := employees + [e];
      journal := journal + [Wrote(Inserted(e))];
    }

    /** `where('empno', k)->update($row)`. */
    method UpdateWhereEmpno(k: string, p: Prepared)
      modifies this
      ensures employees == UpdateWhere(old(employees), k, p)
      ensures syncLogs == old(syncLogs)
      ensures journal == old(journal) + [Wrote(UpdatedWhere(k, p))]
    {
      employees := UpdateWhere(employees, k, p);
      journal := journal + [Wrote(UpdatedWhere(k, p))];
    }

    /** `whereIn('empno', keys)->update(['status_description' => s])`. */
    method UpdateStatusWhereIn(keys: seq<string>, s: string)
      modifies this
      ensures employees == SetStatusWhereIn(old(employees), keys, s)
      ensures syncLogs == old(syncLogs)
      ensures journal == old(journal) + [Wrote(StatusSetWhereIn(keys, s))]
    {
      employees := SetStatusWhereIn(employees, keys, s);
      journal := journal + [Wrote(StatusSetWhereIn(keys, s))];
    }
  }
}
