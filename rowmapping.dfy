/**
 * The row normaliser: turns one incoming spreadsheet row (a PHP array keyed
 * by header text) into the canonical employee record. Each canonical field
 * has an ordered list of header spellings; the first spelling present with a
 * value other than '' wins.
 */
module RowMapping {
  import opened Php

  const EmpnoAliases := ["EMPLOYEE ID NUMBER"]
  const BirthdateAliases := ["DATE OF BIRTH\n \n (DD-MMM-YYYY)", "DATE OF BIRTH"]
  const FnameAliases := ["FIRST NAME\n (JUAN)", "FIRST NAME"]
  const MnameAliases := ["MIDDLE NAME\n (PEREZ)", "MIDDLE NAME"]
  const SnameAliases := ["LASTNAME\n (CRUZ)", "LASTNAME"]
  const EnameAliases := ["EXT.", "EXT"]
  const DivisionAliases := ["DIVISION"]
  const UnitAliases := ["SECTION/UNIT"]
  const AreaAliases := ["OFFICE LOCATION/\nOFFICIAL STATION", "OFFICE LOCATION/OFFICIAL STATION"]
  const EaddressAliases := ["ACTIVE AND WORKING EMAIL ADDRESS"]
  const SexAliases := ["GENDER"]
  const FundSourceAliases := [
    "FUND SOURCE FOR CONTRACTUAL, CONTRACT OF SERVICE AND JOB ORDER (BASED ON CREATION)",
    "FUND SOURCE"]
  const ClassificationAliases := [
    "CLASSIFICATION OF EMPLOYMENT (PERMANENT, COTERMINOUS, CASUAL, CONTRACTUAL, CONTRACT OF SERVICE, JOB ORDER)",
    "CLASSIFICATION OF EMPLOYMENT"]
  const SgAliases := ["SG"]
  const PositionAliases := ["POSITION TITLE"]
  const SalaryAliases := ["MONTHLY SALARY"]

  /**
   * The normalised row: one field per column of `get_employee_info` that
   * the row mapper fills. `Null` stands for SQL NULL.
   */
  datatype Mapped = Mapped(
    empno: Option<string>,
    fname: Value,
    mname: Value,
    sname: Value,
    ename: Value,
    divisionName: Value,
    unitName: Value,
    areaAssignmentName: Value,
    eaddress: Value,
    sex: Value,
    birthdate: Option<string>,
    fundSourceName: Value,
    classificationEmploymentName: Value,
    salaryHistoryId: Value,
    position: Value,
    salary: Value)

  /**
   * `strtotime` followed by `date('Y-m-d', ...)`: `None` where `strtotime`
   * returns false. Both depend on the locale and the clock, so the model
   * takes them as a parameter.
   */
  type DateParser = string -> Option<string>

  /** Header `a` is present in the row with a value that is not ''. */
  predicate Present(row: seq<(Key, Value)>, a: string) {
    var v := Lookup(row, StrKey(a));
    v.Some? && v.value != Str("")
  }

  /**
   * The `$get` closure: walks the aliases in order and returns the value
   * under the first one that is present and not '', or null.
   */
  function Get(row: seq<(Key, Value)>, aliases: seq<string>): Value {
    if |aliases| == 0 then Null
    else
      match Lookup(row, StrKey(aliases[0]))
      case Some(v) => if v != Str("") then v else Get(row, aliases[1..])
      case None => Get(row, aliases[1..])
  }

  /**
   * `v` is what `$get` must return for these aliases: null when none is
   * present with a value other than '', otherwise the value under the first
   * one that is.
   */
  predicate TakesFirstAlias(row: seq<(Key, Value)>, aliases: seq<string>, v: Value) {
    && ((forall j :: 0 <= j < |aliases| ==> !Present(row, aliases[j])) ==> v == Null)
    && (forall j :: 0 <= j < |aliases| && Present(row, aliases[j])
          && (forall j' :: 0 <= j' < j ==> !Present(row, aliases[j']))
          ==> Lookup(row, StrKey(aliases[j])) == Some(v))
  }

  /**
   * `$get` returns null when no alias is present with a value other than '',
   * and otherwise the value under the first alias that is.
   */
  lemma {:induction false} GetFirstMatch(row: seq<(Key, Value)>, aliases: seq<string>)
    ensures TakesFirstAlias(row, aliases, Get(row, aliases))
  {
    if |aliases| > 0 && !Present(row, aliases[0]) {
      var rest := aliases[1..];
      GetFirstMatch(row, rest);
      forall j | 0 <= j < |aliases| && Present(row, aliases[j])
        && (forall j' :: 0 <= j' < j ==> !Present(row, aliases[j']))
        ensures Lookup(row, StrKey(aliases[j])) == Some(Get(row, aliases))
      {
        assert aliases[j] == rest[j - 1];
        forall j' | 0 <= j' < j - 1 ensures !Present(row, rest[j']) {
          assert rest[j'] == aliases[j' + 1];
        }
      }
      if forall j :: 0 <= j < |aliases| ==> !Present(row, aliases[j]) {
        forall j' | 0 <= j' < |rest| ensures !Present(row, rest[j']) {
          assert rest[j'] == aliases[j' + 1];
        }
      }
    }
  }

  /** The date check `preg_match('/^\d{4}-\d{2}-\d{2}$/', ...)` without its `$`. */
  predicate IsoDateShape(s: string)
    requires |s| >= 10
  {
    && '0' <= s[0] <= '9' && '0' <= s[1] <= '9' && '0' <= s[2] <= '9' && '0' <= s[3] <= '9'
    && s[4] == '-'
    && '0' <= s[5] <= '9' && '0' <= s[6] <= '9'
    && s[7] == '-'
    && '0' <= s[8] <= '9' && '0' <= s[9] <= '9'
  }

  /**
   * The whole date pattern. PCRE's `$` also matches just before a final
   * newline, so "1990-05-12\n" matches as well.
   */
  predicate MatchesIsoDate(s: string) {
    || (|s| == 10 && IsoDateShape(s))
    || (|s| == 11 && IsoDateShape(s) && s[10] == '\n')
  }

  /** `toDate`: null for an empty value, ISO dates unchanged, the rest parsed. */
  function ToDate(v: Value, parse: DateParser): (r: Option<string>)
    ensures IsEmpty(v) ==> r == None
    ensures !IsEmpty(v) && MatchesIsoDate(ToStr(v)) ==> r == Some(ToStr(v))
    ensures !IsEmpty(v) && !MatchesIsoDate(ToStr(v)) ==> r == parse(ToStr(v))
  {
    if IsEmpty(v) then None
    else
      var s := ToStr(v);
      if MatchesIsoDate(s) then Some(s) else parse(s)
  }

  /** The parser is never consulted on an empty value or on an ISO date. */
  lemma ToDateIgnoresParser(v: Value, parse: DateParser, parse': DateParser)
    requires IsEmpty(v) || MatchesIsoDate(ToStr(v))
    ensures ToDate(v, parse) == ToDate(v, parse')
  {
  }

  /** A date written as four, two and two digits joined by '-' comes back unchanged. */
  lemma ToDateIsoDigits(y: string, m: string, d: string, parse: DateParser)
    requires |y| == 4 && |m| == 2 && |d| == 2
    requires AllDigits(y) && AllDigits(m) && AllDigits(d)
    ensures ToDate(Str(y + "-" + m + "-" + d), parse) == Some(y + "-" + m + "-" + d)
  {
    var s := y + "-" + m + "-" + d;
    assert s[0] == y[0] && s[1] == y[1] && s[2] == y[2] && s[3] == y[3] && s[4] == '-';
    assert s[5] == m[0] && s[6] == m[1] && s[7] == '-' && s[8] == d[0] && s[9] == d[1];
    assert MatchesIsoDate(s);
    assert !IsEmpty(Str(s)) by { assert |s| == 10; }
  }

  /**
   * The result is null exactly when the value is empty or the parser
   * rejects a non-ISO value.
   */
  lemma ToDateNull(v: Value, parse: DateParser)
    ensures ToDate(v, parse).None? <==>
              IsEmpty(v) || (!MatchesIsoDate(ToStr(v)) && parse(ToStr(v)).None?)
  {
  }

  /**
   * When the parser only answers with four-digit years (0000 to 9999) in
   * `Y-m-d` form, every date `toDate` yields matches the ISO pattern.
   * `date('Y-m-d', ...)` itself gives other years outside that range.
   */
  lemma ToDateIsIso(v: Value, parse: DateParser)
    requires forall s :: parse(s).Some? ==> MatchesIsoDate(parse(s).value)
    ensures ToDate(v, parse).Some? ==> MatchesIsoDate(ToDate(v, parse).value)
  {
  }

  /** The identifying key as `mapRow` computes it: trimmed, or null when absent. */
  function EmpnoOf(raw: Value): (r: Option<string>)
    ensures r.None? <==> raw == Null
    ensures r.Some? ==> r.value == Trim(ToStr(raw))
  {
    if raw == Null then None else Some(Trim(ToStr(raw)))
  }

  /** The identifying key of a row, as `mapRow` computes it. */
  function RowEmpno(row: seq<(Key, Value)>): Option<string> {
    EmpnoOf(Get(row, EmpnoAliases))
  }

  /** `mapRow`: the canonical record for one incoming row. */
  function MapRow(row: seq<(Key, Value)>, parse: DateParser): Mapped
  {
    Mapped(
      empno := RowEmpno(row),
      fname := Get(row, FnameAliases),
      mname := Get(row, MnameAliases),
      sname := Get(row, SnameAliases),
      ename := Get(row, EnameAliases),
      divisionName := Get(row, DivisionAliases),
      unitName := Get(row, UnitAliases),
      areaAssignmentName := Get(row, AreaAliases),
      eaddress := Get(row, EaddressAliases),
      sex := Get(row, SexAliases),
      birthdate := ToDate(Get(row, BirthdateAliases), parse),
      fundSourceName := Get(row, FundSourceAliases),
      classificationEmploymentName := Get(row, ClassificationAliases),
      salaryHistoryId := Get(row, SgAliases),
      position := Get(row, PositionAliases),
      salary := Get(row, SalaryAliases))
  }

  /**
   * Every column `mapRow` fills with `$get` holds the value of the first of
   * its headers that is present and not '', or null.
   */
  lemma MapRowSpec(row: seq<(Key, Value)>, parse: DateParser)
    ensures var m := MapRow(row, parse);
            && TakesFirstAlias(row, FnameAliases, m.fname)
            && TakesFirstAlias(row, MnameAliases, m.mname)
            && TakesFirstAlias(row, SnameAliases, m.sname)
            && TakesFirstAlias(row, EnameAliases, m.ename)
            && TakesFirstAlias(row, DivisionAliases, m.divisionName)
            && TakesFirstAlias(row, UnitAliases, m.unitName)
            && TakesFirstAlias(row, AreaAliases, m.areaAssignmentName)
            && TakesFirstAlias(row, EaddressAliases, m.eaddress)
            && TakesFirstAlias(row, SexAliases, m.sex)
            && TakesFirstAlias(row, FundSourceAliases, m.fundSourceName)
            && TakesFirstAlias(row, ClassificationAliases, m.classificationEmploymentName)
            && TakesFirstAlias(row, SgAliases, m.salaryHistoryId)
            && TakesFirstAlias(row, PositionAliases, m.position)
            && TakesFirstAlias(row, SalaryAliases, m.salary)
  {
    var m := MapRow(row, parse);
    PersonColumns(row, m.fname, m.mname, m.sname, m.ename, m.eaddress, m.sex);
    PostColumns(row, m.divisionName, m.unitName, m.areaAssignmentName, m.fundSourceName,
                m.classificationEmploymentName, m.salaryHistoryId, m.position, m.salary);
  }

  /**
   * The birth date `mapRow` stores is `toDate` of the first date header
   * present with a value other than '', and null when there is none.
   */
  lemma MapRowBirthdate(row: seq<(Key, Value)>, parse: DateParser)
    ensures var b := MapRow(row, parse).birthdate;
            var v0 := Lookup(row, StrKey(BirthdateAliases[0]));
            var v1 := Lookup(row, StrKey(BirthdateAliases[1]));
            && (Present(row, BirthdateAliases[0]) ==> b == ToDate(v0.value, parse))
            && (!Present(row, BirthdateAliases[0]) && Present(row, BirthdateAliases[1]) ==> b == ToDate(v1.value, parse))
            && (!Present(row, BirthdateAliases[0]) && !Present(row, BirthdateAliases[1]) ==> b.None?)
  {
    GetFirstMatch(row, BirthdateAliases);
  }

  /** `$get` for the columns that describe the person. */
  lemma PersonColumns(row: seq<(Key, Value)>, fname: Value, mname: Value, sname: Value,
                      ename: Value, eaddress: Value, sex: Value)
    requires fname == Get(row, FnameAliases) && mname == Get(row, MnameAliases)
    requires sname == Get(row, SnameAliases) && ename == Get(row, EnameAliases)
    requires eaddress == Get(row, EaddressAliases) && sex == Get(row, SexAliases)
    ensures TakesFirstAlias(row, FnameAliases, fname) && TakesFirstAlias(row, MnameAliases, mname)
    ensures TakesFirstAlias(row, SnameAliases, sname) && TakesFirstAlias(row, EnameAliases, ename)
    ensures TakesFirstAlias(row, EaddressAliases, eaddress) && TakesFirstAlias(row, SexAliases, sex)
  {
    GetFirstMatch(row, FnameAliases);
    GetFirstMatch(row, MnameAliases);
    GetFirstMatch(row, SnameAliases);
    GetFirstMatch(row, EnameAliases);
    GetFirstMatch(row, EaddressAliases);
    GetFirstMatch(row, SexAliases);
  }

  /** `$get` for the columns that describe the post. */
  lemma PostColumns(row: seq<(Key, Value)>, division: Value, unit: Value, area: Value, fund: Value,
                    classification: Value, sg: Value, position: Value, salary: Value)
    requires division == Get(row, DivisionAliases) && unit == Get(row, UnitAliases)
    requires area == Get(row, AreaAliases) && fund == Get(row, FundSourceAliases)
    requires classification == Get(row, ClassificationAliases) && sg == Get(row, SgAliases)
    requires position == Get(row, PositionAliases) && salary == Get(row, SalaryAliases)
    ensures TakesFirstAlias(row, DivisionAliases, division) && TakesFirstAlias(row, UnitAliases, unit)
    ensures TakesFirstAlias(row, AreaAliases, area) && TakesFirstAlias(row, FundSourceAliases, fund)
    ensures TakesFirstAlias(row, ClassificationAliases, classification) && TakesFirstAlias(row, SgAliases, sg)
    ensures TakesFirstAlias(row, PositionAliases, position) && TakesFirstAlias(row, SalaryAliases, salary)
  {
    GetFirstMatch(row, DivisionAliases);
    GetFirstMatch(row, UnitAliases);
    GetFirstMatch(row, AreaAliases);
    GetFirstMatch(row, FundSourceAliases);
    GetFirstMatch(row, ClassificationAliases);
    GetFirstMatch(row, SgAliases);
    GetFirstMatch(row, PositionAliases);
    GetFirstMatch(row, SalaryAliases);
  }

  /**
   * The key `mapRow` extracts is null exactly when the row has no
   * "EMPLOYEE ID NUMBER" entry, the entry is '' or the entry is null;
   * otherwise it is the trimmed string form of that entry.
   */
  lemma RowEmpnoSpec(row: seq<(Key, Value)>)
    ensures var e := RowEmpno(row);
            var v := Lookup(row, StrKey(EmpnoAliases[0]));
            && (e.None? <==> v.None? || v.value == Str("") || v.value == Null)
            && (e.Some? ==> v.Some? && e.value == Trim(ToStr(v.value)))
            && (e.Some? && |e.value| > 0 ==> !IsTrimChar(e.value[0]) && !IsTrimChar(e.value[|e.value| - 1]))
  {
    var v := Lookup(row, StrKey(EmpnoAliases[0]));
    assert Get(row, EmpnoAliases[1..]) == Null by { assert EmpnoAliases[1..] == []; }
    var g := Get(row, EmpnoAliases);
    assert g == if v.Some? && v.value != Str("") then v.value else Null;
    if g != Null {
      TrimEnds(ToStr(g));
      assert RowEmpno(row) == Some(Trim(ToStr(g)));
    } else {
      assert RowEmpno(row) == None;
    }
  }

  /** An ID made only of blanks becomes the empty string, not null. */
  lemma BlankIdTrimsToEmpty(row: seq<(Key, Value)>, s: string)
    requires Lookup(row, StrKey(EmpnoAliases[0])) == Some(Str(s))
    requires |s| > 0 && forall k :: 0 <= k < |s| ==> IsTrimChar(s[k])
    ensures RowEmpno(row) == Some("")
  {
    assert EmpnoAliases[1..] == [];
    TrimAllBlank(s);
  }
}
