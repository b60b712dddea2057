/**
 * The per-row classification loop shared by `initialize` and `sync`: each
 * payload row is skipped (not an object, missing ID, duplicate ID) or
 * accepted, and in sync mode an accepted row is further split into created
 * or updated against a snapshot of the keys already in the table.
 */
module Reconcile {
  import opened Php
  import opened RowMapping

  const Active := "ACTIVE"
  const Inactive := "INACTIVE"

  datatype Mode = Initialize | Sync

  /** Why a row was skipped, tried in this order. */
  datatype Reason = NotAnObject | MissingId | DuplicateId

  /** One entry of `$skippedRecords`; only duplicates carry the key. */
  datatype Skip = Skip(index: Key, empno: Option<string>, reason: Reason)

  /**
   * An accepted row ready to be written. `status` is the value the row
   * carries for `status_description`; `None` when it carries no such key.
   */
  datatype Prepared = Prepared(info: Mapped, status: Option<string>)

  /**
   * The loop's variables: `seen` is `$seenEmpnos` / `$seenInPayload`,
   * `incoming` is `$incomingEmpnosAll` (sync only), `rows` is `$validRows` /
   * `$preparedRows`, the rest are the lists and counters of the same names.
   */
  datatype Acc = Acc(
    seen: seq<string>,
    incoming: seq<string>,
    rows: seq<Prepared>,
    created: seq<string>,
    updated: seq<string>,
    skipped: seq<Skip>,
    createdCount: nat,
    updatedCount: nat,
    skippedCount: nat)

  const Start := Acc([], [], [], [], [], [], 0, 0, 0)

  /**
   * PHP's `empty()` on a key that is null or a string: null, "" and "0".
   * The same test is what `->filter()` applies to the existing keys.
   */
  predicate BlankId(k: Option<string>) {
    k.None? || k.value == "" || k.value == "0"
  }

  /**
   * A payload entry after `is_array` and `mapRow`: either not an object, or
   * an object together with its mapped record.
   */
  datatype Incoming = NotObject(index: Key) | Object(index: Key, mapped: Mapped)

  /** The normaliser applied to one `$index => $row` entry of the payload. */
  function Normalize(e: (Key, Value), parse: DateParser): Incoming {
    if e.1.Arr? then Object(e.0, MapRow(e.1.entries, parse)) else NotObject(e.0)
  }

  /** The normaliser applied to every entry, in order. */
  function NormalizeAll(entries: seq<(Key, Value)>, parse: DateParser): (r: seq<Incoming>)
    ensures |r| == |entries|
    decreases |entries|
  {
    if |entries| == 0 then []
    else
      var n := |entries| - 1;
      NormalizeAll(entries[..n], parse) + [Normalize(entries[n], parse)]
  }

  /**
   * Entry `i` becomes an object exactly when its value is a PHP array, and
   * then carries `mapRow` of that array; the index is kept either way.
   */
  lemma NormalizeAllSpec(entries: seq<(Key, Value)>, parse: DateParser)
    ensures var r := NormalizeAll(entries, parse);
            forall i :: 0 <= i < |entries| ==>
              && r[i].index == entries[i].0
              && (r[i].Object? <==> entries[i].1.Arr?)
              && (r[i].Object? ==> r[i].mapped == MapRow(entries[i].1.entries, parse))
  {
    NormalizeAllAt(entries, parse);
  }

  /** Entry `i` of the normalised payload is the normaliser applied to entry `i`. */
  lemma {:induction false} NormalizeAllAt(entries: seq<(Key, Value)>, parse: DateParser)
    ensures forall i :: 0 <= i < |entries| ==> NormalizeAll(entries, parse)[i] == Normalize(entries[i], parse)
    decreases |entries|
  {
    if |entries| > 0 {
      var n := |entries| - 1;
      var prev := NormalizeAll(entries[..n], parse);
      NormalizeAllAt(entries[..n], parse);
      assert NormalizeAll(entries, parse) == prev + [Normalize(entries[n], parse)];
      forall i | 0 <= i < n ensures NormalizeAll(entries, parse)[i] == Normalize(entries[i], parse) {
        assert entries[..n][i] == entries[i];
        assert NormalizeAll(entries, parse)[i] == prev[i];
      }
    }
  }

  /**
   * `BlankId` is PHP's `empty()` on the null-or-string key: both encodings
   * of the test agree.
   */
  lemma BlankIdIsEmpty(k: Option<string>)
    ensures BlankId(k) <==> IsEmpty(if k.None? then Null else Str(k.value))
  {
  }

  /** One iteration of the `foreach` over the payload. */
  function Step(acc: Acc, r: Incoming, existing: seq<string>, mode: Mode): Acc {
    match r
    case NotObject(index) =>
      acc.(skipped := acc.skipped + [Skip(index, None, NotAnObject)], skippedCount := acc.skippedCount + 1)
    case Object(index, mapped) =>
      if BlankId(mapped.empno) then
        acc.(skipped := acc.skipped + [Skip(index, None, MissingId)], skippedCount := acc.skippedCount + 1)
      else
        var k := mapped.empno.value;
        var incoming := if mode == Sync then acc.incoming + [k] else acc.incoming;
        if k in acc.seen then
          acc.(incoming := incoming,
               skipped := acc.skipped + [Skip(index, Some(k), DuplicateId)],
               skippedCount := acc.skippedCount + 1)
        else if mode == Initialize then
          acc.(seen := acc.seen + [k],
               rows := acc.rows + [Prepared(mapped, None)],
               created := acc.created + [k],
               createdCount := acc.createdCount + 1)
        else
          var acc' := acc.(incoming := incoming,
                           seen := acc.seen + [k],
                           rows := acc.rows + [Prepared(mapped, Some(Active))]);
          if k in existing then
            acc'.(updated := acc.updated + [k], updatedCount := acc.updatedCount + 1)
          else
            acc'.(created := acc.created + [k], createdCount := acc.createdCount + 1)
  }

  /** The loop's state after the given (normalised) payload rows. */
  function Classify(rows: seq<Incoming>, existing: seq<string>, mode: Mode): Acc
    decreases |rows|
  {
    if |rows| == 0 then Start
    else
      var n := |rows| - 1;
      Step(Classify(rows[..n], existing, mode), rows[n], existing, mode)
  }

  /**
   * `$missingEmpnos`: `array_diff` of the existing keys against the accepted
   * keys (initialize) or against every non-blank incoming key (sync).
   */
  function Missing(acc: Acc, existing: seq<string>, mode: Mode): seq<string> {
    if mode == Initialize then Diff(existing, acc.seen) else Diff(existing, acc.incoming)
  }

  /** The `$summary` array that is both logged and returned. */
  datatype Summary = Summary(mode: Mode, created: nat, updated: nat, skipped: nat, missing: seq<string>)

  /** `$summary` as each mode builds it; initialize writes a literal 0 for `updated`. */
  function SummaryOf(acc: Acc, existing: seq<string>, mode: Mode): Summary {
    Summary(mode, acc.createdCount, if mode == Initialize then 0 else acc.updatedCount,
            acc.skippedCount, Missing(acc, existing, mode))
  }

  /**
   * The loop written as PHP writes it, with its counters and lists, over the
   * payload rows as `is_array` and `mapRow` see them.
   */
  method ClassifyRows(payload: seq<Incoming>, existing: seq<string>, mode: Mode) returns (acc: Acc)
    ensures acc == Classify(payload, existing, mode)
    ensures acc.createdCount + acc.updatedCount + acc.skippedCount == |payload|
    ensures acc.createdCount == |acc.created| && acc.updatedCount == |acc.updated|
    ensures acc.skippedCount == |acc.skipped|
  {
    var seen, incoming, rows := [], [], [];
    var created, updated, skipped := [], [], [];
    var createdCount, updatedCount, skippedCount := 0, 0, 0;
    var i := 0;
    while i < |payload|
      invariant 0 <= i <= |payload|
      invariant Acc(seen, incoming, rows, created, updated, skipped, createdCount, updatedCount, skippedCount)
                == Classify(payload[..i], existing, mode)
      invariant createdCount + updatedCount + skippedCount == i
      invariant createdCount == |created| && updatedCount == |updated| && skippedCount == |skipped|
      decreases |payload| - i
    {
      assert payload[..i + 1][..i] == payload[..i];
      match payload[i] {
        case NotObject(index) =>
          skippedCount := skippedCount + 1;
          skipped := skipped + [Skip(index, None, NotAnObject)];
        case Object(index, mapped) =>
          var empno := mapped.empno;
          if BlankId(empno) {
            skippedCount := skippedCount + 1;
            skipped := skipped + [Skip(index, None, MissingId)];
          } else {
            var k := empno.value;
            if mode == Sync {
              incoming := incoming + [k];
            }
            if k in seen {
              skippedCount := skippedCount + 1;
              skipped := skipped + [Skip(index, Some(k), DuplicateId)];
            } else {
              seen := seen + [k];
              if mode == Initialize {
                rows := rows + [Prepared(mapped, None)];
                created := created + [k];
                createdCount := createdCount + 1;
              } else {
                if k in existing {
                  updatedCount := updatedCount + 1;
                  updated := updated + [k];
                } else {
                  createdCount := createdCount + 1;
                  created := created + [k];
                }
                rows := rows + [Prepared(mapped, Some(Active))];
              }
            }
          }
      }
      i := i + 1;
    }
    assert payload[..i] == payload;
    acc := Acc(seen, incoming, rows, created, updated, skipped, createdCount, updatedCount, skippedCount);
  }

  // ----- An independent, per-row account of the classification -----

  /** The key a row contributes, if it is an object with a non-blank ID. */
  function ValidKey(r: Incoming): Option<string> {
    if r.Object? && !BlankId(r.mapped.empno) then r.mapped.empno else None
  }

  /** The keys of all rows that have one, in payload order, repeats included. */
  function ValidKeys(entries: seq<Incoming>): (r: seq<string>)
    ensures forall k :: k in r ==> !BlankId(Some(k))
    decreases |entries|
  {
    if |entries| == 0 then []
    else
      var n := |entries| - 1;
      ValidKeys(entries[..n]) + (match ValidKey(entries[n]) case Some(k) => [k] case None => [])
  }

  datatype Verdict = Accept(key: string) | Reject(reason: Reason, skippedKey: Option<string>)

  /**
   * What happens to row `j`: the reasons are tried in order, and a key is
   * a duplicate exactly when an earlier row already had it.
   */
  function VerdictAt(entries: seq<Incoming>, j: nat): Verdict
    requires j < |entries|
  {
    var r := entries[j];
    if r.NotObject? then Reject(NotAnObject, None)
    else if BlankId(r.mapped.empno) then Reject(MissingId, None)
    else
      var k := r.mapped.empno.value;
      if k in ValidKeys(entries[..j]) then Reject(DuplicateId, Some(k)) else Accept(k)
  }

  /** The rows with a `Reject` verdict, as skip records, in payload order. */
  function RefSkipped(entries: seq<Incoming>): seq<Skip>
    decreases |entries|
  {
    if |entries| == 0 then []
    else
      var n := |entries| - 1;
      RefSkipped(entries[..n]) +
      (match VerdictAt(entries, n)
       case Reject(reason, k) => [Skip(entries[n].index, k, reason)]
       case Accept(_) => [])
  }

  /** The keys with an `Accept` verdict, in payload order. */
  function RefAccepted(entries: seq<Incoming>): seq<string>
    decreases |entries|
  {
    if |entries| == 0 then []
    else
      var n := |entries| - 1;
      RefAccepted(entries[..n]) +
      (match VerdictAt(entries, n)
       case Accept(k) => [k]
       case Reject(_, _) => [])
  }

  /** What row `j` contributes when accepted: its mapped record, ACTIVE in sync mode. */
  function AcceptedRow(entries: seq<Incoming>, j: nat, mode: Mode): Prepared
    requires j < |entries| && entries[j].Object?
  {
    Prepared(entries[j].mapped, if mode == Sync then Some(Active) else None)
  }

  /** The rows with an `Accept` verdict, as they are to be written, in payload order. */
  function RefRows(entries: seq<Incoming>, mode: Mode): (r: seq<Prepared>)
    ensures |r| == |RefAccepted(entries)|
    decreases |entries|
  {
    if |entries| == 0 then []
    else
      var n := |entries| - 1;
      RefRows(entries[..n], mode) +
      (match VerdictAt(entries, n)
       case Accept(_) => [AcceptedRow(entries, n, mode)]
       case Reject(_, _) => [])
  }

  predicate Distinct(s: seq<string>) {
    forall i, j :: 0 <= i < j < |s| ==> s[i] != s[j]
  }

  /** The elements of `a` that are in `b`, in order. */
  function Inter(a: seq<string>, b: seq<string>): seq<string> {
    if |a| == 0 then []
    else Inter(a[..|a| - 1], b) + (if a[|a| - 1] in b then [a[|a| - 1]] else [])
  }

  /** An element is in the intersection exactly when it is in both. */
  lemma {:induction false} InterMembership(a: seq<string>, b: seq<string>)
    ensures forall x :: x in Inter(a, b) <==> x in a && x in b
    decreases |a|
  {
    if |a| > 0 {
      var n := |a| - 1;
      InterMembership(a[..n], b);
      assert a == a[..n] + [a[n]];
    }
  }

  // ----- Properties of the loop -----

  /**
   * Every row is counted exactly once: the counters equal the lengths of
   * their lists and add up to the number of payload rows.
   */
  lemma {:induction false} ClassifyCounts(entries: seq<Incoming>, existing: seq<string>, mode: Mode)
    ensures var acc := Classify(entries, existing, mode);
            && acc.createdCount == |acc.created|
            && acc.updatedCount == |acc.updated|
            && acc.skippedCount == |acc.skipped|
            && |acc.created| + |acc.updated| == |acc.seen| == |acc.rows|
            && |acc.created| + |acc.updated| + |acc.skipped| == |entries|
            && (mode == Initialize ==> acc.updatedCount == 0)
    decreases |entries|
  {
    if |entries| > 0 {
      ClassifyCounts(entries[..|entries| - 1], existing, mode);
    }
  }

  /**
   * The accepted keys are exactly the non-blank keys of the payload, each
   * once; row `j` of the accepted rows is the mapped row of key `j`, which
   * sync marks ACTIVE and initialize leaves without a status.
   */
  lemma {:induction false} ClassifyAccepted(entries: seq<Incoming>, existing: seq<string>, mode: Mode)
    ensures var acc := Classify(entries, existing, mode);
            && Distinct(acc.seen)
            && (forall k :: k in acc.seen <==> k in ValidKeys(entries))
            && |acc.rows| == |acc.seen|
            && (forall j :: 0 <= j < |acc.rows| ==> acc.rows[j].info.empno == Some(acc.seen[j]))
            && (forall j :: 0 <= j < |acc.rows| ==>
                  acc.rows[j].status == (if mode == Sync then Some(Active) else None))
    decreases |entries|
  {
    if |entries| > 0 {
      var n := |entries| - 1;
      var prev := entries[..n];
      ClassifyAccepted(prev, existing, mode);
      var a0 := Classify(prev, existing, mode);
      var a := Classify(entries, existing, mode);
      assert a == Step(a0, entries[n], existing, mode);
      match ValidKey(entries[n])
      case None =>
        assert a.seen == a0.seen && a.rows == a0.rows;
        assert ValidKeys(entries) == ValidKeys(prev);
      case Some(k) =>
        assert ValidKeys(entries) == ValidKeys(prev) + [k];
        if k in a0.seen {
          assert a.seen == a0.seen && a.rows == a0.rows;
        } else {
          assert a.seen == a0.seen + [k];
          assert a.rows == a0.rows + [Prepared(entries[n].mapped, if mode == Sync then Some(Active) else None)];
        }
    }
  }

  /** In sync mode `$incomingEmpnosAll` is every non-blank key, repeats included. */
  lemma {:induction false} ClassifyIncoming(entries: seq<Incoming>, existing: seq<string>, mode: Mode)
    ensures var acc := Classify(entries, existing, mode);
            acc.incoming == (if mode == Sync then ValidKeys(entries) else [])
    decreases |entries|
  {
    if |entries| > 0 {
      var n := |entries| - 1;
      ClassifyIncoming(entries[..n], existing, mode);
      var a0 := Classify(entries[..n], existing, mode);
      assert Classify(entries, existing, mode) == Step(a0, entries[n], existing, mode);
      match ValidKey(entries[n])
      case None =>
        assert ValidKeys(entries) == ValidKeys(entries[..n]);
        assert Step(a0, entries[n], existing, mode).incoming == a0.incoming;
      case Some(k) =>
        assert ValidKeys(entries) == ValidKeys(entries[..n]) + [k];
        assert Step(a0, entries[n], existing, mode).incoming
               == if mode == Sync then a0.incoming + [k] else a0.incoming;
    }
  }

  /**
   * Initialize reports every accepted key as created; sync reports an
   * accepted key as updated exactly when it is in the snapshot of existing
   * keys, and as created otherwise, each list in payload order.
   */
  lemma {:induction false} ClassifySplit(entries: seq<Incoming>, existing: seq<string>, mode: Mode)
    ensures var acc := Classify(entries, existing, mode);
            && (mode == Initialize ==> acc.created == acc.seen && acc.updated == [])
            && (mode == Sync ==> acc.created == Diff(acc.seen, existing) && acc.updated == Inter(acc.seen, existing))
    decreases |entries|
  {
    if |entries| > 0 {
      var n := |entries| - 1;
      var prev := entries[..n];
      ClassifySplit(prev, existing, mode);
      var a0 := Classify(prev, existing, mode);
      var a := Classify(entries, existing, mode);
      assert a == Step(a0, entries[n], existing, mode);
      match ValidKey(entries[n])
      case None =>
        assert a.seen == a0.seen && a.created == a0.created && a.updated == a0.updated;
      case Some(k) =>
        if k in a0.seen {
          assert a.seen == a0.seen && a.created == a0.created && a.updated == a0.updated;
        } else {
          assert a.seen == a0.seen + [k];
          assert a.seen[..|a.seen| - 1] == a0.seen;
          if mode == Sync && k in existing {
            assert a.created == a0.created && a.updated == a0.updated + [k];
          } else {
            assert a.created == a0.created + [k] && a.updated == a0.updated;
          }
        }
    }
  }

  /**
   * In sync mode `created` and `updated` are disjoint and together hold
   * exactly the accepted keys; a key is updated exactly when it is in the
   * snapshot.
   */
  lemma SyncSplitsAccepted(entries: seq<Incoming>, existing: seq<string>)
    ensures var acc := Classify(entries, existing, Sync);
            && (forall k :: k in acc.updated <==> k in acc.seen && k in existing)
            && (forall k :: k in acc.created <==> k in acc.seen && k !in existing)
            && (forall k :: k in acc.seen <==> k in acc.created || k in acc.updated)
            && (forall k :: !(k in acc.created && k in acc.updated))
  {
    var acc := Classify(entries, existing, Sync);
    ClassifySplit(entries, existing, Sync);
    DiffMembership(acc.seen, existing);
    InterMembership(acc.seen, existing);
  }

  /**
   * The loop agrees with the per-row verdicts, in both modes: its skip
   * records, its accepted keys and the rows it keeps for them are those of
   * the rows whose verdict says so.
   */
  lemma {:induction false} ClassifyMatchesVerdicts(entries: seq<Incoming>, existing: seq<string>, mode: Mode)
    ensures Classify(entries, existing, mode).skipped == RefSkipped(entries)
    ensures Classify(entries, existing, mode).seen == RefAccepted(entries)
    ensures Classify(entries, existing, mode).rows == RefRows(entries, mode)
    decreases |entries|
  {
    if |entries| > 0 {
      var n := |entries| - 1;
      ClassifyMatchesVerdicts(entries[..n], existing, mode);
      ClassifyAccepted(entries[..n], existing, mode);
      assert entries[..n] == entries[..|entries|][..n];
    }
  }

  /**
   * The row kept for a key is the first payload row carrying it: an
   * accepted row `j` sits among the accepted rows with its own mapped
   * record, next to its key.
   */
  lemma {:induction false} AcceptedRowIsFirstOccurrence(entries: seq<Incoming>, mode: Mode, j: nat)
    requires j < |entries| && VerdictAt(entries, j).Accept?
    ensures exists i :: 0 <= i < |RefRows(entries, mode)|
              && RefAccepted(entries)[i] == VerdictAt(entries, j).key
              && RefRows(entries, mode)[i] == AcceptedRow(entries, j, mode)
    decreases |entries|
  {
    var n := |entries| - 1;
    var prev := entries[..n];
    if j == n {
      var i := |RefRows(prev, mode)|;
      assert RefRows(entries, mode)[i] == AcceptedRow(entries, j, mode);
      assert RefAccepted(entries)[i] == VerdictAt(entries, j).key;
    } else {
      assert prev[..j] == entries[..j] && prev[j] == entries[j];
      assert VerdictAt(prev, j) == VerdictAt(entries, j);
      AcceptedRowIsFirstOccurrence(prev, mode, j);
      var i :| 0 <= i < |RefRows(prev, mode)|
               && RefAccepted(prev)[i] == VerdictAt(prev, j).key
               && RefRows(prev, mode)[i] == AcceptedRow(prev, j, mode);
      assert RefRows(entries, mode)[i] == RefRows(prev, mode)[i];
      assert RefAccepted(entries)[i] == RefAccepted(prev)[i];
    }
  }

  /** A key is among those before position `j` exactly when an earlier row has it. */
  lemma {:induction false} ValidKeysMembership(entries: seq<Incoming>, k: string)
    ensures k in ValidKeys(entries) <==> exists j :: 0 <= j < |entries| && ValidKey(entries[j]) == Some(k)
    decreases |entries|
  {
    if |entries| > 0 {
      var n := |entries| - 1;
      ValidKeysMembership(entries[..n], k);
      assert forall j :: 0 <= j < n ==> entries[..n][j] == entries[j];
    }
  }

  /**
   * The first row carrying a key is accepted and every later row carrying
   * the same key is skipped as a duplicate, with the key recorded.
   */
  lemma FirstOccurrenceWins(entries: seq<Incoming>, j: nat, k: string)
    requires j < |entries| && ValidKey(entries[j]) == Some(k)
    ensures VerdictAt(entries, j) == Accept(k) <==> forall i :: 0 <= i < j ==> ValidKey(entries[i]) != Some(k)
    ensures VerdictAt(entries, j) != Accept(k) ==> VerdictAt(entries, j) == Reject(DuplicateId, Some(k))
  {
    ValidKeysMembership(entries[..j], k);
    assert forall i :: 0 <= i < j ==> entries[..j][i] == entries[i];
  }

  /** Only duplicate skips carry a key. */
  lemma {:induction false} SkipsCarryKeyOnlyForDuplicates(entries: seq<Incoming>)
    ensures forall s :: s in RefSkipped(entries) ==> (s.empno.Some? <==> s.reason == DuplicateId)
    decreases |entries|
  {
    if |entries| > 0 {
      SkipsCarryKeyOnlyForDuplicates(entries[..|entries| - 1]);
    }
  }

  /**
   * In both modes `missing` is the existing keys minus the accepted keys,
   * in the order of the existing list: it holds no accepted key and only
   * existing ones.
   */
  lemma MissingIsExistingMinusAccepted(entries: seq<Incoming>, existing: seq<string>, mode: Mode)
    ensures var acc := Classify(entries, existing, mode);
            && Missing(acc, existing, mode) == Diff(existing, acc.seen)
            && (forall k :: k in Missing(acc, existing, mode) <==> k in existing && k !in acc.seen)
  {
    var acc := Classify(entries, existing, mode);
    DiffMembership(existing, acc.seen);
    if mode == Sync {
      ClassifyIncoming(entries, existing, mode);
      ClassifyAccepted(entries, existing, mode);
      DiffSameElements(existing, acc.incoming, acc.seen);
    }
  }

  /** Which keys are accepted, and which rows go with them, does not depend on the snapshot. */
  lemma {:induction false} AcceptedIgnoresSnapshot(entries: seq<Incoming>, ex: seq<string>, ex': seq<string>, mode: Mode)
    ensures Classify(entries, ex, mode).seen == Classify(entries, ex', mode).seen
    ensures Classify(entries, ex, mode).rows == Classify(entries, ex', mode).rows
    ensures Classify(entries, ex, mode).incoming == Classify(entries, ex', mode).incoming
    ensures Classify(entries, ex, mode).skipped == Classify(entries, ex', mode).skipped
    decreases |entries|
  {
    if |entries| > 0 {
      var n := |entries| - 1;
      AcceptedIgnoresSnapshot(entries[..n], ex, ex', mode);
      StepIgnoresSnapshot(Classify(entries[..n], ex, mode), Classify(entries[..n], ex', mode), entries[n], ex, ex', mode);
    }
  }

  /** One iteration's effect on the accepted keys and rows does not depend on the snapshot. */
  lemma StepIgnoresSnapshot(a: Acc, a': Acc, r: Incoming, ex: seq<string>, ex': seq<string>, mode: Mode)
    requires a.seen == a'.seen && a.rows == a'.rows && a.incoming == a'.incoming && a.skipped == a'.skipped
    ensures Step(a, r, ex, mode).seen == Step(a', r, ex', mode).seen
    ensures Step(a, r, ex, mode).rows == Step(a', r, ex', mode).rows
    ensures Step(a, r, ex, mode).incoming == Step(a', r, ex', mode).incoming
    ensures Step(a, r, ex, mode).skipped == Step(a', r, ex', mode).skipped
  {
  }
}
