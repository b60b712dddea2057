/**
 * Worked cases of the reconciliation, each proved about the model: the
 * {A, B, C} + {A, D} sync, a duplicated ID, IDs that trim or cast to a
 * blank, the alias fallback, the date pass-through, and a JSON object body.
 */
module Scenarios {
  import opened Php
  import opened RowMapping
  import opened Reconcile
  import opened Directory
  import opened Writes

  /** A mapped row with the given key and every other column NULL. */
  function Rec(k: string): Mapped {
    Mapped(Some(k), Null, Null, Null, Null, Null, Null, Null, Null, Null, None, Null, Null, Null, Null, Null)
  }

  function Stored(k: string): Employee {
    Employee(Rec(k), Null, Null, Some(Active))
  }

  /** A table holding A, B and C, all ACTIVE. */
  const TableABC := [Stored("A"), Stored("B"), Stored("C")]

  /** The incoming A row, with a first name the stored A row lacks. */
  const NewA := Rec("A").(fname := Str("Ann"))

  /** The stored A row after the sync rewrites it. */
  const UpdatedA := Employee(NewA, Null, Null, Some(Active))

  /** A payload with rows for A (with updated fields) and D. */
  const RowsAD := [Object(IntKey(0), NewA), Object(IntKey(1), Rec("D"))]

  lemma KeysABC()
    ensures Keys(TableABC) == ["A", "B", "C"]
  {
    assert Keys([]) == [];
    KeysSnoc([], Stored("A"));
    assert [] + [Stored("A")] == [Stored("A")];
    assert !BlankId(Some("A")) && !BlankId(Some("B")) && !BlankId(Some("C"));
    KeysSnoc([Stored("A")], Stored("B"));
    KeysSnoc([Stored("A"), Stored("B")], Stored("C"));
    assert [Stored("A"), Stored("B")] + [Stored("C")] == TableABC;
  }

  /**
   * Existing keys {A, B, C} synced with rows A and D: D is created, A is
   * updated, B and C are missing.
   */
  lemma SyncABCWithADReport()
    ensures var acc := Classify(RowsAD, Keys(TableABC), Sync);
            && acc.created == ["D"] && acc.updated == ["A"] && acc.skipped == []
            && acc.rows == [Prepared(NewA, Some(Active)), Prepared(Rec("D"), Some(Active))]
            && Missing(acc, Keys(TableABC), Sync) == ["B", "C"]
  {
    KeysABC();
    ClassifyAD();
    DiffBC();
  }

  lemma ClassifyAD()
    ensures var acc := Classify(RowsAD, ["A", "B", "C"], Sync);
            && acc.created == ["D"] && acc.updated == ["A"] && acc.skipped == []
            && acc.rows == [Prepared(NewA, Some(Active)), Prepared(Rec("D"), Some(Active))]
            && acc.incoming == ["A", "D"]
  {
    var existing := ["A", "B", "C"];
    var r0, r1 := RowsAD[0], RowsAD[1];
    assert RowsAD[..1] == [r0] && [r0][..0] == [];
    assert Classify([], existing, Sync) == Start;
    var a1 := Classify([r0], existing, Sync);
    assert a1 == Step(Start, r0, existing, Sync);
    assert Classify(RowsAD, existing, Sync) == Step(a1, r1, existing, Sync);
  }

  lemma DiffBC()
    ensures Diff(["A", "B", "C"], ["A", "D"]) == ["B", "C"]
  {
    var inc := ["A", "D"];
    assert Diff(["A"], inc) == [] by { assert ["A"][..0] == []; }
    assert Diff(["A", "B"], inc) == ["B"] by { assert ["A", "B"][..1] == ["A"]; }
    assert ["A", "B", "C"][..2] == ["A", "B"];
  }

  /** The update for A rewrites A's row with the incoming fields and leaves B and C alone. */
  lemma UpdateA()
    ensures UpdateWhere(TableABC, "A", Prepared(NewA, Some(Active))) == [UpdatedA, Stored("B"), Stored("C")]
  {
    var w := UpdateWhere(TableABC, "A", Prepared(NewA, Some(Active)));
    assert w[0] == UpdatedA;
    assert w[1] == Stored("B");
    assert w[2] == Stored("C");
  }

  /** Marking B and C touches only their status. */
  lemma MarkBC()
    ensures SetStatusWhereIn([UpdatedA, Stored("B"), Stored("C"), Stored("D")], ["B", "C"], Inactive)
            == [UpdatedA, Stored("B").(status := Some(Inactive)),
                Stored("C").(status := Some(Inactive)), Stored("D")]
  {
    var m := SetStatusWhereIn([UpdatedA, Stored("B"), Stored("C"), Stored("D")], ["B", "C"], Inactive);
    assert m[0] == UpdatedA;
    assert m[1] == Stored("B").(status := Some(Inactive));
    assert m[2] == Stored("C").(status := Some(Inactive));
    assert m[3] == Stored("D");
  }

  /** Upserting A then D rewrites row 0 and appends D. */
  lemma UpsertAD()
    ensures Upsert(TableABC, [Prepared(NewA, Some(Active)), Prepared(Rec("D"), Some(Active))], ["A", "B", "C"])
            == [UpdatedA, Stored("B"), Stored("C"), Stored("D")]
  {
    var t := TableABC;
    var existing := ["A", "B", "C"];
    var p0, p1 := Prepared(NewA, Some(Active)), Prepared(Rec("D"), Some(Active));
    UpsertSnoc(t, [], p0, existing);
    UpsertSnoc(t, [p0], p1, existing);
    assert [] + [p0] == [p0] && [p0] + [p1] == [p0, p1];
    assert Upsert(t, [], existing) == t;
    var t1 := [UpdatedA, Stored("B"), Stored("C")];
    assert UpsertOne(t, p0, existing) == t1 by { UpdateA(); }
    assert UpsertOne(t1, p1, existing) == t1 + [Stored("D")];
    assert t1 + [Stored("D")] == [UpdatedA, Stored("B"), Stored("C"), Stored("D")];
  }

  /**
   * After that sync, row 0 is A with the incoming first name and ACTIVE, B
   * and C are INACTIVE and D is appended ACTIVE; nothing is deleted.
   */
  lemma SyncABCWithADTable()
    ensures SyncedTable(TableABC, RowsAD) == [UpdatedA, Stored("B").(status := Some(Inactive)),
                                               Stored("C").(status := Some(Inactive)), Stored("D")]
    ensures SyncedTable(TableABC, RowsAD)[0].info.fname == Str("Ann")
  {
    KeysABC();
    SyncABCWithADReport();
    UpsertAD();
    MarkBC();
  }

  /**
   * Of two rows with ID E001, the second is skipped as a duplicate and
   * carries the ID, and the first one's fields are the ones kept.
   */
  lemma DuplicateIdSkipped(mode: Mode, existing: seq<string>)
    ensures var rows := [Object(IntKey(0), Rec("E001").(fname := Str("Ana"))),
                         Object(IntKey(1), Rec("E001").(fname := Str("Ben")))];
            var acc := Classify(rows, existing, mode);
            && acc.seen == ["E001"]
            && acc.skipped == [Skip(IntKey(1), Some("E001"), DuplicateId)]
            && |acc.rows| == 1 && acc.rows[0].info == Rec("E001").(fname := Str("Ana"))
  {
    var r0 := Object(IntKey(0), Rec("E001").(fname := Str("Ana")));
    var r1 := Object(IntKey(1), Rec("E001").(fname := Str("Ben")));
    assert [r0, r1][..1] == [r0];
    assert Classify([r0], existing, mode) == Step(Start, r0, existing, mode);
  }

  /**
   * A JSON object body decodes to a PHP array, so its members are iterated
   * as rows: `{"foo": "bar"}` gives one "not an object" skip at index "foo",
   * and the entry points answer ok.
   */
  lemma ObjectBodyIsIterated(parse: DateParser, existing: seq<string>, mode: Mode)
    ensures var body := Arr([(StrKey("foo"), Str("bar"))]);
            var acc := Classify(NormalizeAll(body.entries, parse), existing, mode);
            && body.Arr?
            && acc.skipped == [Skip(StrKey("foo"), None, NotAnObject)]
            && acc.seen == [] && acc.createdCount == 0 && acc.skippedCount == 1
  {
    var entries := [(StrKey("foo"), Str("bar"))];
    assert entries[..0] == [];
    assert NormalizeAll(entries, parse) == [NotObject(StrKey("foo"))];
    assert [NotObject(StrKey("foo"))][..0] == [];
  }

  /** The ID is trimmed of the blanks PHP's `trim` strips. */
  lemma IdIsTrimmed()
    ensures RowEmpno([(StrKey("EMPLOYEE ID NUMBER"), Str(" E001\t"))]) == Some("E001")
  {
    var row := [(StrKey("EMPLOYEE ID NUMBER"), Str(" E001\t"))];
    assert Lookup(row, StrKey(EmpnoAliases[0])) == Some(Str(" E001\t"));
    assert Get(row, EmpnoAliases) == Str(" E001\t") by {
      assert EmpnoAliases[1..] == [];
    }
    var s := " E001\t";
    assert LeadingEnd(s, 0) == 1;
    var t := s[1..];
    assert t == "E001\t";
    assert TrailingStart(t, 5) == 4;
    assert t[..4] == "E001";
  }

  /**
   * An ID of 0, as a number or as the string "0", survives the alias lookup
   * (only '' is passed over) but is then rejected as missing by `empty`.
   */
  lemma ZeroIdRejected(v: Value, parse: DateParser, existing: seq<string>, mode: Mode)
    requires v == Int(0) || v == Str("0")
    ensures var row := [(StrKey("EMPLOYEE ID NUMBER"), v)];
            && RowEmpno(row) == Some("0")
            && Step(Start, Normalize((IntKey(7), Arr(row)), parse), existing, mode).skipped
               == [Skip(IntKey(7), None, MissingId)]
  {
    var row := [(StrKey("EMPLOYEE ID NUMBER"), v)];
    assert Lookup(row, StrKey(EmpnoAliases[0])) == Some(v);
    assert Get(row, EmpnoAliases) == v by {
      assert EmpnoAliases[1..] == [];
    }
    assert ToStr(v) == "0";
    assert LeadingEnd("0", 0) == 0;
    assert TrailingStart("0", 1) == 1;
    assert Trim("0") == "0";
  }

  /** A later alias is used when the preferred header holds ''. */
  lemma AliasFallback()
    ensures var row := [(StrKey("FIRST NAME\n (JUAN)"), Str("")), (StrKey("FIRST NAME"), Str("Juan"))];
            Get(row, FnameAliases) == Str("Juan")
  {
    var row := [(StrKey("FIRST NAME\n (JUAN)"), Str("")), (StrKey("FIRST NAME"), Str("Juan"))];
    assert Lookup(row, StrKey(FnameAliases[0])) == Some(Str(""));
    assert row[1..] == [(StrKey("FIRST NAME"), Str("Juan"))];
    assert Lookup(row, StrKey(FnameAliases[1])) == Some(Str("Juan"));
    assert FnameAliases[1..][1..] == [];
  }

  /**
   * A header holding JSON null is present: `null !== ''`, so `$get` returns
   * null there and does not fall back to the next alias.
   */
  lemma NullHeaderNoFallback()
    ensures var row := [(StrKey("FIRST NAME\n (JUAN)"), Null), (StrKey("FIRST NAME"), Str("Juan"))];
            Get(row, FnameAliases) == Null
  {
    var row := [(StrKey("FIRST NAME\n (JUAN)"), Null), (StrKey("FIRST NAME"), Str("Juan"))];
    assert Lookup(row, StrKey(FnameAliases[0])) == Some(Null);
  }

  /**
   * The zero date fails the ISO pattern and goes to the parser; where the
   * parser answers as `date('Y-m-d', strtotime(...))` does for it, the
   * stored date is "-0001-11-30", which does not match the ISO pattern.
   */
  lemma ZeroDateNotIso(parse: DateParser)
    requires parse("0000-00-00 00:00:00") == Some("-0001-11-30")
    ensures ToDate(Str("0000-00-00 00:00:00"), parse) == Some("-0001-11-30")
    ensures !MatchesIsoDate("-0001-11-30")
  {
    assert !MatchesIsoDate("0000-00-00 00:00:00");
  }

  /**
   * ISO dates pass through `toDate` unchanged, and so does one followed by
   * a single newline, because `$` in the pattern also matches before a final
   * newline. Empty values give null without consulting the parser.
   */
  lemma DatePassThrough(parse: DateParser)
    ensures ToDate(Str("1990-05-12"), parse) == Some("1990-05-12")
    ensures ToDate(Str("1990-05-12\n"), parse) == Some("1990-05-12\n")
    ensures ToDate(Str("0"), parse) == None && ToDate(Int(0), parse) == None && ToDate(Null, parse) == None
    ensures ToDate(Str("12-May-1990"), parse) == parse("12-May-1990")
  {
  }
}
