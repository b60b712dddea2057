/**
 * The table each mode leaves behind, as functions of the table before and
 * the accepted rows: initialize inserts them into the emptied table; sync
 * updates the rows of known keys, inserts the others and marks the missing
 * keys INACTIVE. The lemmas give the result in closed form, row by row.
 */
module Writes {
  import opened Php
  import opened RowMapping
  import opened Reconcile
  import opened Directory

  /** `isset($existingSet[$empno])`: the prepared row updates rather than inserts. */
  predicate Updates(p: Prepared, existing: seq<string>) {
    p.info.empno.Some? && p.info.empno.value in existing
  }

  /** The rows `insert` appends, one per prepared row, in order. */
  function InsertedRows(rows: seq<Prepared>): (r: seq<Employee>)
    ensures |r| == |rows|
    ensures forall j :: 0 <= j < |rows| ==> r[j] == NewEmployee(rows[j])
    decreases |rows|
  {
    if |rows| == 0 then []
    else
      var n := |rows| - 1;
      InsertedRows(rows[..n]) + [NewEmployee(rows[n])]
  }

  /** One pass of the sync write loop: update every row with the key, or insert. */
  function UpsertOne(t: seq<Employee>, p: Prepared, existing: seq<string>): seq<Employee> {
    if Updates(p, existing) then UpdateWhere(t, p.info.empno.value, p) else t + [NewEmployee(p)]
  }

  /** The sync write loop over the prepared rows. */
  function Upsert(t: seq<Employee>, rows: seq<Prepared>, existing: seq<string>): seq<Employee>
    decreases |rows|
  {
    if |rows| == 0 then t
    else
      var n := |rows| - 1;
      UpsertOne(Upsert(t, rows[..n], existing), rows[n], existing)
  }

  /** The write loop over one more row is one more pass. */
  lemma UpsertSnoc(t: seq<Employee>, rows: seq<Prepared>, p: Prepared, existing: seq<string>)
    ensures Upsert(t, rows + [p], existing) == UpsertOne(Upsert(t, rows, existing), p, existing)
  {
    assert (rows + [p])[..|rows|] == rows;
  }

  /** Step 2 of the sync transaction: runs only when `missing` is not empty. */
  function MarkMissing(t: seq<Employee>, missing: seq<string>): seq<Employee> {
    if |missing| > 0 then SetStatusWhereIn(t, missing, Inactive) else t
  }

  /** The journal entries of the initialize insert loop. */
  function InsertWrites(rows: seq<Prepared>): (r: seq<Event>)
    ensures forall j :: 0 <= j < |r| ==> r[j].Wrote?
    decreases |rows|
  {
    if |rows| == 0 then []
    else
      var n := |rows| - 1;
      InsertWrites(rows[..n]) + [Wrote(Inserted(NewEmployee(rows[n])))]
  }

  /** The write one prepared row makes in sync. */
  function UpsertWrite(p: Prepared, existing: seq<string>): Write {
    if Updates(p, existing) then UpdatedWhere(p.info.empno.value, p) else Inserted(NewEmployee(p))
  }

  /** The journal entries of the sync write loop. */
  function UpsertWrites(rows: seq<Prepared>, existing: seq<string>): (r: seq<Event>)
    ensures forall j :: 0 <= j < |r| ==> r[j].Wrote?
    decreases |rows|
  {
    if |rows| == 0 then []
    else
      var n := |rows| - 1;
      UpsertWrites(rows[..n], existing) + [Wrote(UpsertWrite(rows[n], existing))]
  }

  /** The journal entry of the INACTIVE step, if it runs. */
  function MarkWrites(missing: seq<string>): (r: seq<Event>)
    ensures forall j :: 0 <= j < |r| ==> r[j].Wrote?
  {
    if |missing| > 0 then [Wrote(StatusSetWhereIn(missing, Inactive))] else []
  }

  /** The table `initialize` leaves: the accepted rows, whatever was there. */
  function InitializedTable(rows: seq<Incoming>, existing: seq<string>): seq<Employee> {
    InsertedRows(Classify(rows, existing, Initialize).rows)
  }

  /** The table `sync` leaves behind when it starts from `t`. */
  function SyncedTable(t: seq<Employee>, rows: seq<Incoming>): seq<Employee> {
    var existing := Keys(t);
    var acc := Classify(rows, existing, Sync);
    MarkMissing(Upsert(t, acc.rows, existing), Missing(acc, existing, Sync))
  }

  // ----- Closed forms -----

  /** The prepared rows sync inserts, in order. */
  function FreshRows(rows: seq<Prepared>, existing: seq<string>): (r: seq<Prepared>)
    ensures forall j :: 0 <= j < |r| ==> !Updates(r[j], existing)
    decreases |rows|
  {
    if |rows| == 0 then []
    else
      var n := |rows| - 1;
      FreshRows(rows[..n], existing) + (if Updates(rows[n], existing) then [] else [rows[n]])
  }

  /** Every inserted row is one of the prepared rows. */
  lemma {:induction false} FreshRowsFromRows(rows: seq<Prepared>, existing: seq<string>)
    ensures forall p :: p in FreshRows(rows, existing) ==> p in rows
    decreases |rows|
  {
    if |rows| > 0 {
      var n := |rows| - 1;
      FreshRowsFromRows(rows[..n], existing);
      assert rows == rows[..n] + [rows[n]];
    }
  }

  /** A row of the old table after every update of the write loop. */
  function Refreshed(e: Employee, rows: seq<Prepared>, existing: seq<string>): (r: Employee)
    ensures r.info.empno == e.info.empno
    ensures r.password == e.password && r.accountStatusName == e.accountStatusName
    decreases |rows|
  {
    if |rows| == 0 then e
    else
      var n := |rows| - 1;
      var e' := Refreshed(e, rows[..n], existing);
      if Updates(rows[n], existing) && e'.info.empno == rows[n].info.empno then Refresh(e', rows[n]) else e'
  }

  function RefreshedAll(t: seq<Employee>, rows: seq<Prepared>, existing: seq<string>): seq<Employee> {
    seq(|t|, i requires 0 <= i < |t| => Refreshed(t[i], rows, existing))
  }

  /** No two prepared rows carry the same key. */
  predicate KeysDistinct(rows: seq<Prepared>) {
    forall i, j :: 0 <= i < j < |rows| && rows[i].info.empno.Some? ==> rows[i].info.empno != rows[j].info.empno
  }

  /**
   * The write loop leaves the old rows in place, each updated by the rows
   * with its key, followed by the inserted rows. Rows inserted by the loop
   * are never hit by a later update: their keys are not in the snapshot.
   */
  lemma {:induction false} UpsertLayout(t: seq<Employee>, rows: seq<Prepared>, existing: seq<string>)
    ensures Upsert(t, rows, existing) == RefreshedAll(t, rows, existing) + InsertedRows(FreshRows(rows, existing))
    decreases |rows|
  {
    if |rows| > 0 {
      var n := |rows| - 1;
      UpsertLayout(t, rows[..n], existing);
      RefreshedAllStep(t, rows, existing);
      if Updates(rows[n], existing) {
        UpsertLayoutUpdate(t, rows, existing);
      } else {
        UpsertLayoutInsert(t, rows, existing);
      }
    }
  }

  /** The induction step of `UpsertLayout` for a row that updates. */
  lemma UpsertLayoutUpdate(t: seq<Employee>, rows: seq<Prepared>, existing: seq<string>)
    requires |rows| > 0 && Updates(rows[|rows| - 1], existing)
    requires var n := |rows| - 1;
             Upsert(t, rows[..n], existing)
               == RefreshedAll(t, rows[..n], existing) + InsertedRows(FreshRows(rows[..n], existing))
    requires var n := |rows| - 1;
             RefreshedAll(t, rows, existing)
               == UpdateWhere(RefreshedAll(t, rows[..n], existing), rows[n].info.empno.value, rows[n])
    ensures Upsert(t, rows, existing) == RefreshedAll(t, rows, existing) + InsertedRows(FreshRows(rows, existing))
  {
    var n := |rows| - 1;
    var p := rows[n];
    var k := p.info.empno.value;
    var a0 := RefreshedAll(t, rows[..n], existing);
    var f0 := FreshRows(rows[..n], existing);
    var i0 := InsertedRows(f0);
    assert FreshRows(rows, existing) == f0;
    forall j | 0 <= j < |i0| ensures i0[j].info.empno != Some(k) {
      assert i0[j] == NewEmployee(f0[j]);
      assert !Updates(f0[j], existing);
    }
    UpdateWhereSkipsTail(a0, i0, k, p);
  }

  /** The induction step of `UpsertLayout` for a row that is inserted. */
  lemma UpsertLayoutInsert(t: seq<Employee>, rows: seq<Prepared>, existing: seq<string>)
    requires |rows| > 0 && !Updates(rows[|rows| - 1], existing)
    requires var n := |rows| - 1;
             Upsert(t, rows[..n], existing)
               == RefreshedAll(t, rows[..n], existing) + InsertedRows(FreshRows(rows[..n], existing))
    requires RefreshedAll(t, rows, existing) == RefreshedAll(t, rows[..|rows| - 1], existing)
    ensures Upsert(t, rows, existing) == RefreshedAll(t, rows, existing) + InsertedRows(FreshRows(rows, existing))
  {
    var n := |rows| - 1;
    var p := rows[n];
    var a0 := RefreshedAll(t, rows[..n], existing);
    var f0 := FreshRows(rows[..n], existing);
    var i0 := InsertedRows(f0);
    assert FreshRows(rows, existing) == f0 + [p];
    assert (f0 + [p])[..|f0|] == f0;
    assert InsertedRows(f0 + [p]) == i0 + [NewEmployee(p)];
    assert (a0 + i0) + [NewEmployee(p)] == a0 + (i0 + [NewEmployee(p)]);
  }

  /** An update leaves alone a tail of rows none of which has its key. */
  lemma UpdateWhereSkipsTail(a: seq<Employee>, b: seq<Employee>, k: string, p: Prepared)
    requires forall j :: 0 <= j < |b| ==> b[j].info.empno != Some(k)
    ensures UpdateWhere(a + b, k, p) == UpdateWhere(a, k, p) + b
  {
    var l, r := UpdateWhere(a + b, k, p), UpdateWhere(a, k, p) + b;
    forall i | 0 <= i < |l| ensures l[i] == r[i] {
      if i >= |a| {
        assert (a + b)[i] == b[i - |a|];
      }
    }
  }

  /** The old rows after one more prepared row: updated by it when it is an update. */
  lemma RefreshedAllStep(t: seq<Employee>, rows: seq<Prepared>, existing: seq<string>)
    requires |rows| > 0
    ensures var n := |rows| - 1;
            var a0 := RefreshedAll(t, rows[..n], existing);
            RefreshedAll(t, rows, existing)
              == if Updates(rows[n], existing) then UpdateWhere(a0, rows[n].info.empno.value, rows[n]) else a0
  {
    var n := |rows| - 1;
    var a0, a := RefreshedAll(t, rows[..n], existing), RefreshedAll(t, rows, existing);
    var b := if Updates(rows[n], existing) then UpdateWhere(a0, rows[n].info.empno.value, rows[n]) else a0;
    forall i | 0 <= i < |t| ensures a[i] == b[i] {
      assert a[i] == Refreshed(t[i], rows, existing);
      assert a0[i] == Refreshed(t[i], rows[..n], existing);
    }
  }

  /**
   * With distinct keys, an old row is rewritten by the one prepared row that
   * updates its key, and kept as it was when there is none.
   */
  lemma {:induction false} RefreshedDirect(e: Employee, rows: seq<Prepared>, existing: seq<string>)
    requires KeysDistinct(rows)
    ensures forall j :: 0 <= j < |rows| && Updates(rows[j], existing) && rows[j].info.empno == e.info.empno
              ==> Refreshed(e, rows, existing) == Refresh(e, rows[j])
    ensures (forall j :: 0 <= j < |rows| ==> !(Updates(rows[j], existing) && rows[j].info.empno == e.info.empno))
              ==> Refreshed(e, rows, existing) == e
    decreases |rows|
  {
    if |rows| > 0 {
      var n := |rows| - 1;
      var prev := rows[..n];
      assert KeysDistinct(prev);
      RefreshedDirect(e, prev, existing);
      assert forall j :: 0 <= j < n ==> prev[j] == rows[j];
    }
  }

  /** The keys of the inserted rows are the accepted keys not in the snapshot, in order. */
  lemma {:induction false} FreshKeys(rows: seq<Prepared>, keys: seq<string>, existing: seq<string>)
    requires |rows| == |keys|
    requires forall j :: 0 <= j < |rows| ==> rows[j].info.empno == Some(keys[j])
    ensures |FreshRows(rows, existing)| == |Diff(keys, existing)|
    ensures forall j :: 0 <= j < |Diff(keys, existing)| ==>
              FreshRows(rows, existing)[j].info.empno == Some(Diff(keys, existing)[j])
    decreases |rows|
  {
    if |rows| > 0 {
      var n := |rows| - 1;
      var r0, k0 := rows[..n], keys[..n];
      assert forall j :: 0 <= j < n ==> r0[j] == rows[j] && k0[j] == keys[j];
      FreshKeys(r0, k0, existing);
      var f0, d0 := FreshRows(r0, existing), Diff(k0, existing);
      var inside := keys[n] in existing;
      assert Updates(rows[n], existing) == inside;
      var f, d := FreshRows(rows, existing), Diff(keys, existing);
      assert f == f0 + (if inside then [] else [rows[n]]);
      assert d == d0 + (if inside then [] else [keys[n]]);
      assert |f| == |d|;
      forall j | 0 <= j < |d| ensures f[j].info.empno == Some(d[j]) {
        if j < |d0| {
          assert f[j] == f0[j] && d[j] == d0[j];
        }
      }
    }
  }

  /** Inserting rows with non-blank keys adds exactly those keys to the key list. */
  lemma {:induction false} KeysOfInserted(rows: seq<Prepared>, keys: seq<string>)
    requires |rows| == |keys|
    requires forall j :: 0 <= j < |rows| ==> rows[j].info.empno == Some(keys[j]) && !BlankId(Some(keys[j]))
    ensures Keys(InsertedRows(rows)) == keys
    decreases |rows|
  {
    if |rows| > 0 {
      var n := |rows| - 1;
      KeysOfInserted(rows[..n], keys[..n]);
      var ins := InsertedRows(rows);
      assert ins[..|ins| - 1] == InsertedRows(rows[..n]);
      assert keys == keys[..n] + [keys[n]];
    }
  }

  // ----- After initialize -----

  /**
   * After initialize the table holds exactly the accepted rows in payload
   * order, one per key and without a status; its key list is the accepted
   * keys, and it does not depend on what the table held before.
   */
  lemma InitializeOutcome(rows: seq<Incoming>, existing: seq<string>, existing': seq<string>)
    ensures var acc := Classify(rows, existing, Initialize);
            var u := InitializedTable(rows, existing);
            && |u| == |acc.seen|
            && (forall j :: 0 <= j < |u| ==>
                  u[j].info == acc.rows[j].info && u[j].info.empno == Some(acc.seen[j])
                  && u[j].status == None && u[j].password == Null && u[j].accountStatusName == Null)
            && Keys(u) == acc.seen
            && Distinct(Keys(u))
            && u == InitializedTable(rows, existing')
            && u == InsertedRows(RefRows(rows, Initialize))
  {
    var acc := Classify(rows, existing, Initialize);
    ClassifyMatchesVerdicts(rows, existing, Initialize);
    ClassifyAccepted(rows, existing, Initialize);
    ValidKeysNonBlank(rows, existing, Initialize);
    KeysOfInserted(acc.rows, acc.seen);
    AcceptedIgnoresSnapshot(rows, existing, existing', Initialize);
  }

  /** The accepted keys are never blank. */
  lemma ValidKeysNonBlank(rows: seq<Incoming>, existing: seq<string>, mode: Mode)
    ensures forall k :: k in Classify(rows, existing, mode).seen ==> !BlankId(Some(k))
  {
    ClassifyAccepted(rows, existing, mode);
  }

  // ----- After sync -----

  /**
   * What the classification loop guarantees about sync's accepted rows: one
   * per accepted key, in the same order, each carrying its key and forced
   * ACTIVE; the keys are distinct and not blank.
   */
  predicate AcceptedShape(prepared: seq<Prepared>, seen: seq<string>) {
    && |prepared| == |seen|
    && Distinct(seen)
    && (forall j :: 0 <= j < |seen| ==> prepared[j].info.empno == Some(seen[j]) && prepared[j].status == Some(Active))
    && (forall k :: k in seen ==> !BlankId(Some(k)))
  }

  /** The classification loop's results in the form the outcome lemmas take them. */
  lemma SyncFacts(t: seq<Employee>, rows: seq<Incoming>)
    ensures var existing := Keys(t);
            var acc := Classify(rows, existing, Sync);
            var missing := Missing(acc, existing, Sync);
            && AcceptedShape(acc.rows, acc.seen)
            && acc.created == Diff(acc.seen, existing)
            && (forall k :: k in missing <==> k in existing && k !in acc.seen)
            && SyncedTable(t, rows) == MarkMissing(Upsert(t, acc.rows, existing), missing)
  {
    var existing := Keys(t);
    ClassifyAccepted(rows, existing, Sync);
    ValidKeysNonBlank(rows, existing, Sync);
    ClassifySplit(rows, existing, Sync);
    MissingIsExistingMinusAccepted(rows, existing, Sync);
  }

  lemma AcceptedKeysDistinct(prepared: seq<Prepared>, seen: seq<string>)
    requires AcceptedShape(prepared, seen)
    ensures KeysDistinct(prepared)
  {
  }

  /** A row after step 2 of the sync transaction. */
  function MarkRow(e: Employee, missing: seq<string>): Employee {
    if |missing| > 0 && e.info.empno.Some? && e.info.empno.value in missing then e.(status := Some(Inactive)) else e
  }

  /** Step 2 of the sync transaction, row by row. */
  lemma MarkMissingRows(v: seq<Employee>, missing: seq<string>)
    ensures |MarkMissing(v, missing)| == |v|
    ensures forall i :: 0 <= i < |v| ==> MarkMissing(v, missing)[i] == MarkRow(v[i], missing)
  {
  }

  /** The row's key is one of the accepted keys or one of the missing ones. */
  predicate AcceptedOrMissing(e: Employee, accepted: seq<string>, missing: seq<string>) {
    e.info.empno.Some? && (e.info.empno.value in accepted || e.info.empno.value in missing)
  }

  /**
   * Sync keeps every old row in its place, each updated by the write loop
   * and then marked, and appends the inserted rows, which step 2 never
   * marks because their keys are not in the snapshot.
   */
  lemma UpsertThenMark(t: seq<Employee>, prepared: seq<Prepared>, existing: seq<string>, missing: seq<string>)
    requires forall k :: k in missing ==> k in existing
    ensures var u := MarkMissing(Upsert(t, prepared, existing), missing);
            && |u| == |t| + |FreshRows(prepared, existing)|
            && (forall i :: 0 <= i < |t| ==> u[i] == MarkRow(Refreshed(t[i], prepared, existing), missing))
            && u[|t|..] == InsertedRows(FreshRows(prepared, existing))
  {
    var f := FreshRows(prepared, existing);
    var added := InsertedRows(f);
    var a := RefreshedAll(t, prepared, existing);
    UpsertLayout(t, prepared, existing);
    forall j | 0 <= j < |added| ensures MarkRow(added[j], missing) == added[j] {
      assert added[j] == NewEmployee(f[j]);
      assert !Updates(f[j], existing);
    }
    MarkMissingSkipsTail(a, added, missing);
  }

  /** Step 2 over old rows followed by rows no marking touches. */
  lemma MarkMissingSkipsTail(a: seq<Employee>, added: seq<Employee>, missing: seq<string>)
    requires forall j :: 0 <= j < |added| ==> MarkRow(added[j], missing) == added[j]
    ensures var u := MarkMissing(a + added, missing);
            && |u| == |a| + |added|
            && (forall i :: 0 <= i < |a| ==> u[i] == MarkRow(a[i], missing))
            && u[|a|..] == added
  {
    var v := a + added;
    var u := MarkMissing(v, missing);
    MarkMissingRows(v, missing);
    forall i | 0 <= i < |a| ensures u[i] == MarkRow(a[i], missing) {
      assert v[i] == a[i];
    }
    forall j | 0 <= j < |added| ensures u[|a|..][j] == added[j] {
      assert v[|a| + j] == added[j];
    }
  }

  /**
   * The old rows after sync: each whose key was accepted holds that key's
   * mapped fields and is ACTIVE, each whose key is missing is INACTIVE and
   * otherwise unchanged, every other one is unchanged. None is deleted or
   * moved, and no key, password or account status changes.
   */
  lemma {:induction false} OldRowsAfterSync(t: seq<Employee>, prepared: seq<Prepared>, seen: seq<string>, missing: seq<string>)
    requires AcceptedShape(prepared, seen)
    requires forall k :: k in missing <==> k in Keys(t) && k !in seen
    ensures var u := MarkMissing(Upsert(t, prepared, Keys(t)), missing);
            && |u| >= |t|
            && (forall i :: 0 <= i < |t| ==>
                  u[i].info.empno == t[i].info.empno
                  && u[i].password == t[i].password && u[i].accountStatusName == t[i].accountStatusName)
            && (forall i, j :: 0 <= i < |t| && 0 <= j < |seen| && t[i].info.empno == Some(seen[j]) ==>
                  u[i].info == prepared[j].info && u[i].status == Some(Active))
            && (forall i :: 0 <= i < |t| && t[i].info.empno.Some? && t[i].info.empno.value in missing ==>
                  u[i] == t[i].(status := Some(Inactive)))
            && (forall i :: 0 <= i < |t| && !AcceptedOrMissing(t[i], seen, missing) ==> u[i] == t[i])
  {
    var existing := Keys(t);
    var u := MarkMissing(Upsert(t, prepared, existing), missing);
    UpsertThenMark(t, prepared, existing, missing);
    AcceptedKeysDistinct(prepared, seen);
    forall i | 0 <= i < |t|
      ensures forall j :: 0 <= j < |seen| && t[i].info.empno == Some(seen[j]) ==>
                u[i].info == prepared[j].info && u[i].status == Some(Active)
      ensures t[i].info.empno.Some? && t[i].info.empno.value in missing ==> u[i] == t[i].(status := Some(Inactive))
      ensures !AcceptedOrMissing(t[i], seen, missing) ==> u[i] == t[i]
    {
      RefreshedDirect(t[i], prepared, existing);
      var e := t[i].info.empno;
      if e.Some? && e.value in seen {
        assert e.value in existing;
        forall j | 0 <= j < |seen| && e == Some(seen[j])
          ensures u[i].info == prepared[j].info && u[i].status == Some(Active)
        {
          assert Updates(prepared[j], existing);
          assert Refreshed(t[i], prepared, existing) == Refresh(t[i], prepared[j]);
        }
      } else {
        assert forall j :: 0 <= j < |prepared| ==> prepared[j].info.empno != e;
        assert Refreshed(t[i], prepared, existing) == t[i];
      }
    }
  }

  /**
   * The rows sync appends: the created keys' rows in the order of
   * `created`, each ACTIVE, with no password or account status, and holding
   * the mapped fields of an accepted row with that key.
   */
  lemma NewRowsAfterSync(t: seq<Employee>, prepared: seq<Prepared>, seen: seq<string>, missing: seq<string>,
                         created: seq<string>, u: seq<Employee>)
    requires AcceptedShape(prepared, seen)
    requires forall k :: k in missing ==> k in Keys(t)
    requires created == Diff(seen, Keys(t))
    requires u == MarkMissing(Upsert(t, prepared, Keys(t)), missing)
    ensures |u| == |t| + |created|
    ensures var ins := u[|t|..];
            forall c :: 0 <= c < |created| ==>
              && ins[c].info.empno == Some(created[c])
              && ins[c].status == Some(Active)
              && ins[c].password == Null && ins[c].accountStatusName == Null
              && exists m :: 0 <= m < |prepared| && ins[c].info == prepared[m].info
  {
    var existing := Keys(t);
    UpsertThenMark(t, prepared, existing, missing);
    InsertedFreshRows(prepared, seen, existing);
  }

  /** The rows the write loop inserts, one per accepted key outside the snapshot. */
  lemma InsertedFreshRows(prepared: seq<Prepared>, seen: seq<string>, existing: seq<string>)
    requires AcceptedShape(prepared, seen)
    ensures var ins := InsertedRows(FreshRows(prepared, existing));
            var created := Diff(seen, existing);
            && |ins| == |created|
            && (forall c :: 0 <= c < |created| ==>
                  && ins[c].info.empno == Some(created[c])
                  && ins[c].status == Some(Active)
                  && ins[c].password == Null && ins[c].accountStatusName == Null
                  && exists m :: 0 <= m < |prepared| && ins[c].info == prepared[m].info)
  {
    var added := FreshRows(prepared, existing);
    FreshKeys(prepared, seen, existing);
    FreshRowsFromRows(prepared, existing);
    forall c | 0 <= c < |added|
      ensures added[c].status == Some(Active)
      ensures exists m :: 0 <= m < |prepared| && added[c].info == prepared[m].info
    {
      assert added[c] in added;
      var m :| 0 <= m < |prepared| && prepared[m] == added[c];
    }
  }

  /** After sync the key list is the old one followed by `created`. */
  lemma KeysAfterSync(t: seq<Employee>, prepared: seq<Prepared>, seen: seq<string>, missing: seq<string>,
                      created: seq<string>, u: seq<Employee>)
    requires AcceptedShape(prepared, seen)
    requires forall k :: k in missing ==> k in Keys(t)
    requires created == Diff(seen, Keys(t))
    requires u == MarkMissing(Upsert(t, prepared, Keys(t)), missing)
    ensures Keys(u) == Keys(t) + created
  {
    var existing := Keys(t);
    UpsertThenMark(t, prepared, existing, missing);
    var added := FreshRows(prepared, existing);
    FreshKeys(prepared, seen, existing);
    DiffMembership(seen, existing);
    forall c | 0 <= c < |added|
      ensures added[c].info.empno == Some(created[c]) && !BlankId(Some(created[c]))
    {
      assert created[c] in seen;
    }
    KeysOfInserted(added, created);
    var kept := u[..|t|];
    forall i | 0 <= i < |t| ensures kept[i].info.empno == t[i].info.empno {
      assert kept[i] == MarkRow(Refreshed(t[i], prepared, existing), missing);
    }
    KeysSameEmpnos(kept, t);
    KeysSplit(u, |t|);
  }

  /** Sync's old rows, stated for the classification loop's own results. */
  lemma SyncUpdatesOldRows(t: seq<Employee>, rows: seq<Incoming>)
    ensures var existing := Keys(t);
            var acc := Classify(rows, existing, Sync);
            var missing := Missing(acc, existing, Sync);
            var u := SyncedTable(t, rows);
            && |acc.rows| == |acc.seen|
            && |u| >= |t|
            && (forall i :: 0 <= i < |t| ==>
                  u[i].info.empno == t[i].info.empno
                  && u[i].password == t[i].password && u[i].accountStatusName == t[i].accountStatusName)
            && (forall i, j :: 0 <= i < |t| && 0 <= j < |acc.seen| && t[i].info.empno == Some(acc.seen[j]) ==>
                  u[i].info == acc.rows[j].info && u[i].status == Some(Active))
            && (forall i :: 0 <= i < |t| && t[i].info.empno.Some? && t[i].info.empno.value in missing ==>
                  u[i] == t[i].(status := Some(Inactive)))
            && (forall i :: 0 <= i < |t| && !AcceptedOrMissing(t[i], acc.seen, missing) ==> u[i] == t[i])
  {
    var existing := Keys(t);
    var acc := Classify(rows, existing, Sync);
    SyncFacts(t, rows);
    OldRowsAfterSync(t, acc.rows, acc.seen, Missing(acc, existing, Sync));
  }

  /**
   * After sync the key list is the old one followed by `created`; the rows
   * sync appends are described, for any accepted rows the loop can produce,
   * by `NewRowsAfterSync`, whose preconditions `SyncFacts` establishes.
   */
  lemma SyncKeys(t: seq<Employee>, rows: seq<Incoming>)
    ensures var existing := Keys(t);
            var acc := Classify(rows, existing, Sync);
            && |SyncedTable(t, rows)| == |t| + |acc.created|
            && Keys(SyncedTable(t, rows)) == existing + acc.created
  {
    var existing := Keys(t);
    var acc := Classify(rows, existing, Sync);
    var missing := Missing(acc, existing, Sync);
    SyncFacts(t, rows);
    var u := SyncedTable(t, rows);
    NewRowsAfterSync(t, acc.rows, acc.seen, missing, acc.created, u);
    KeysAfterSync(t, acc.rows, acc.seen, missing, acc.created, u);
  }

  /** Every accepted key has a row after sync, with its mapped fields and ACTIVE. */
  lemma SyncHasEveryAccepted(t: seq<Employee>, rows: seq<Incoming>)
    ensures var acc := Classify(rows, Keys(t), Sync);
            var u := SyncedTable(t, rows);
            forall j :: 0 <= j < |acc.rows| ==>
              exists i :: 0 <= i < |u| && u[i].info == acc.rows[j].info && u[i].status == Some(Active)
  {
    var existing := Keys(t);
    var acc := Classify(rows, existing, Sync);
    var missing := Missing(acc, existing, Sync);
    SyncFacts(t, rows);
    EveryAcceptedPresent(t, acc.rows, acc.seen, missing);
  }

  /**
   * The first payload row carrying each key is in the table after either
   * mode, with its own mapped fields: ACTIVE after sync, without a status
   * after initialize.
   */
  lemma FirstRowsStored(t: seq<Employee>, rows: seq<Incoming>, j: nat)
    requires j < |rows| && VerdictAt(rows, j).Accept?
    ensures exists i :: 0 <= i < |SyncedTable(t, rows)|
              && SyncedTable(t, rows)[i].info == rows[j].mapped
              && SyncedTable(t, rows)[i].status == Some(Active)
    ensures exists i :: 0 <= i < |InitializedTable(rows, Keys(t))|
              && InitializedTable(rows, Keys(t))[i].info == rows[j].mapped
              && InitializedTable(rows, Keys(t))[i].status == None
  {
    var existing := Keys(t);
    ClassifyMatchesVerdicts(rows, existing, Sync);
    ClassifyMatchesVerdicts(rows, existing, Initialize);
    AcceptedRowIsFirstOccurrence(rows, Sync, j);
    AcceptedRowIsFirstOccurrence(rows, Initialize, j);
    var acc := Classify(rows, existing, Sync);
    var missing := Missing(acc, existing, Sync);
    SyncFacts(t, rows);
    EveryAcceptedPresent(t, acc.rows, acc.seen, missing);
    var u := MarkMissing(Upsert(t, acc.rows, existing), missing);
    var s :| 0 <= s < |RefRows(rows, Sync)| && RefRows(rows, Sync)[s] == AcceptedRow(rows, j, Sync);
    assert acc.rows[s].info == rows[j].mapped;
    assert exists i :: 0 <= i < |u| && u[i].info == acc.rows[s].info && u[i].status == Some(Active);
    var n :| 0 <= n < |RefRows(rows, Initialize)| && RefRows(rows, Initialize)[n] == AcceptedRow(rows, j, Initialize);
    assert InitializedTable(rows, existing)[n] == NewEmployee(AcceptedRow(rows, j, Initialize));
  }

  lemma EveryAcceptedPresent(t: seq<Employee>, prepared: seq<Prepared>, seen: seq<string>, missing: seq<string>)
    requires AcceptedShape(prepared, seen)
    requires forall k :: k in missing <==> k in Keys(t) && k !in seen
    ensures var u := MarkMissing(Upsert(t, prepared, Keys(t)), missing);
            forall j :: 0 <= j < |prepared| ==>
              exists i :: 0 <= i < |u| && u[i].info == prepared[j].info && u[i].status == Some(Active)
  {
    var existing := Keys(t);
    var u := MarkMissing(Upsert(t, prepared, existing), missing);
    var created := Diff(seen, existing);
    OldRowsAfterSync(t, prepared, seen, missing);
    NewRowsAfterSync(t, prepared, seen, missing, created, u);
    UpsertThenMark(t, prepared, existing, missing);
    FreshKeys(prepared, seen, existing);
    FreshRowsFromRows(prepared, existing);
    DiffMembership(seen, existing);
    var added := FreshRows(prepared, existing);
    forall j | 0 <= j < |prepared|
      ensures exists i :: 0 <= i < |u| && u[i].info == prepared[j].info && u[i].status == Some(Active)
    {
      var k := seen[j];
      if k in existing {
        var i :| 0 <= i < |t| && t[i].info.empno == Some(k);
        assert u[i].info == prepared[j].info;
      } else {
        assert k in created;
        var c :| 0 <= c < |created| && created[c] == k;
        var p := added[c];
        assert u[|t| + c] == u[|t|..][c] == NewEmployee(p);
        assert p in added;
        var m :| 0 <= m < |prepared| && prepared[m] == p;
        assert seen[m] == k;
        assert m == j;
      }
    }
  }

  /**
   * Running the same sync a second time creates nothing and reports the
   * same missing keys: rows marked INACTIVE stay in the table.
   */
  lemma SecondSyncCreatesNothing(t: seq<Employee>, rows: seq<Incoming>)
    ensures var acc := Classify(rows, Keys(t), Sync);
            var t' := SyncedTable(t, rows);
            var acc' := Classify(rows, Keys(t'), Sync);
            && acc'.created == []
            && acc'.seen == acc.seen
            && Missing(acc', Keys(t'), Sync) == Missing(acc, Keys(t), Sync)
  {
    var existing := Keys(t);
    var acc := Classify(rows, existing, Sync);
    var t' := SyncedTable(t, rows);
    var existing' := Keys(t');
    var acc' := Classify(rows, existing', Sync);
    SyncKeys(t, rows);
    assert existing' == existing + acc.created;
    AcceptedIgnoresSnapshot(rows, existing, existing', Sync);
    assert acc'.seen == acc.seen;
    ClassifySplit(rows, existing, Sync);
    ClassifySplit(rows, existing', Sync);
    // Every accepted key is now in the table: it was there already or was just created.
    assert forall x :: x in acc.seen ==> x in existing' by {
      DiffMembership(acc.seen, existing);
    }
    DiffAllIn(acc.seen, existing');
    assert acc'.created == [];
    // The created keys are accepted, so they are not missing again.
    MissingIsExistingMinusAccepted(rows, existing, Sync);
    MissingIsExistingMinusAccepted(rows, existing', Sync);
    DiffAppend(existing, acc.created, acc.seen);
    assert Diff(acc.created, acc.seen) == [] by {
      DiffMembership(acc.seen, existing);
      DiffAllIn(acc.created, acc.seen);
    }
    assert Diff(existing, acc.seen) + [] == Diff(existing, acc.seen);
  }
}
