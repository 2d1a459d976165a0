/**
 * The data-extraction logic of the portal scraper (`UBCalCourseExtractor`), with the
 * browser replaced by the text the DOM queries return. The personal-details view is a
 * sequence of form rows (caption cell, value cell); the enrollment view is a sequence of
 * enrollment-period rows, each with its table cells and the course table that its
 * expand button brings up; the clock is the month and year passed in.
 */
module CourseExtractor {
  import opened Wrappers
  import opened JsString

  // ---------------------------------------------------------------------------
  // Records
  // ---------------------------------------------------------------------------

  datatype StudentDetails = StudentDetails(fullName: string, email: string, birthDate: string)

  datatype Course = Course(code: string, name: string)

  /** How an extraction fails. */
  datatype Error =
    | NoEnrollmentRows   // no enrollment-period row appears within the 10 s wait
    | MissingCell        // a table cell the code dereferences with `!` is absent
    | PopupTimeout       // expanding the current period brings up no course popup

  // ---------------------------------------------------------------------------
  // URLs
  // ---------------------------------------------------------------------------

  const BaseUrl: string := "https://mondossierweb.u-bordeaux.fr/robots.txt"

  /** The two portal views the extractor visits. */
  datatype View = Personal | Courses

  function ViewSuffix(v: View): string {
    match v
    case Personal => "etatCivilView"
    case Courses => "inscriptionsView"
  }

  /** The address of a view: the base URL followed by a `#!` fragment naming the view. */
  function GenerateURL(v: View): (url: string)
    ensures |BaseUrl| + 2 < |url|
    ensures url[..|BaseUrl|] == BaseUrl && url[|BaseUrl|..|BaseUrl| + 2] == "#!"
  {
    BaseUrl + "#!" + ViewSuffix(v)
  }

  /** Each view has its own address. */
  lemma GenerateURLInjective(v: View, w: View)
    ensures GenerateURL(v) == GenerateURL(w) <==> v == w
  {
    if v != w {
      assert |GenerateURL(v)| != |GenerateURL(w)|;
    }
  }

  /** The two addresses the extractor navigates to. */
  lemma GenerateURLValues()
    ensures GenerateURL(Personal) == BaseUrl + "#!etatCivilView"
    ensures GenerateURL(Courses) == BaseUrl + "#!inscriptionsView"
  {
  }

  // ---------------------------------------------------------------------------
  // Semester
  // ---------------------------------------------------------------------------

  /**
   * Which half of a "YYYY/YYYY" academic year is the current calendar year, from the
   * 0-based month `Date.getMonth` gives: 1 (the second year) up to July, 0 from August.
   */
  function SemesterNumber(month: int): (s: nat)
    ensures s <= 1
  {
    if month < 7 then 1 else 0
  }

  /** January to July select index 1, August to December index 0. */
  lemma SemesterOfMonth(month: int)
    requires 0 <= month <= 11
    ensures month <= 6 ==> SemesterNumber(month) == 1
    ensures month >= 7 ==> SemesterNumber(month) == 0
  {
  }

  // ---------------------------------------------------------------------------
  // Student details
  // ---------------------------------------------------------------------------

  /** A row of the personal-details form: the texts of its caption and value cells, None where a cell is absent. */
  datatype FormRow = FormRow(caption: Option<string>, value: Option<string>)

  datatype Field = FullName | Email | BirthDate

  /** What a recognised row assigns: a field and the trimmed value text. */
  datatype Entry = Entry(field: Field, text: string)

  const FullNameLabel: string := "pr\U{E9}nom et nom"
  const EmailLabel: string := "email"
  const BirthDateLabel: string := "date de naissance"

  function Label(f: Field): string {
    match f
    case FullName => FullNameLabel
    case Email => EmailLabel
    case BirthDate => BirthDateLabel
  }

  function FieldOf(caption: string): Option<Field> {
    if caption == FullNameLabel then Some(FullName)
    else if caption == EmailLabel then Some(Email)
    else if caption == BirthDateLabel then Some(BirthDate)
    else None
  }

  /** A label names exactly one field. */
  lemma FieldOfLabel(caption: string, f: Field)
    ensures FieldOf(caption) == Some(f) <==> caption == Label(f)
  {
  }

  /** A caption written as the label itself is recognised: the labels are already lower-case and trimmed. */
  lemma LabelIsRecognised(f: Field)
    ensures FieldOf(Trim(Lower(Label(f)))) == Some(f)
  {
    var l := Label(f);
    LabelIsLowerCase(l);
    LowerFixed(l);
    TrimUnpadded(l);
  }

  /** The characters of the labels need no lower-casing. */
  lemma LabelIsLowerCase(l: string)
    requires l == FullNameLabel || l == EmailLabel || l == BirthDateLabel
    ensures forall k :: 0 <= k < |l| ==> LowerChar(l[k]) == l[k]
    ensures !IsWhite(l[0]) && !IsWhite(l[|l| - 1])
  {
    assert forall k :: 0 <= k < |l| ==> l[k] == ' ' || 'a' <= l[k] <= 'z' || l[k] == '\U{E9}';
  }

  /** JavaScript truthiness of a text that may be null: present and not empty. */
  predicate Truthy(t: Option<string>) {
    t.Some? && t.value != ""
  }

  /** The assignment a row makes, if any: both texts truthy and the lower-cased, trimmed caption a label. */
  function RowEntry(row: FormRow): (r: Option<Entry>)
    ensures r.Some? ==>
      && Truthy(row.caption) && Truthy(row.value)
      && Trim(Lower(row.caption.value)) == Label(r.value.field)
      && r.value.text == Trim(row.value.value)
  {
    if Truthy(row.caption) && Truthy(row.value) then
      match FieldOf(Trim(Lower(row.caption.value)))
      case Some(f) => Some(Entry(f, Trim(row.value.value)))
      case None => None
    else None
  }

  /** A row assigns field `f` the text `v` exactly when both cells have text, its caption reads as `f`'s label and `v` is the trimmed value. */
  lemma RowEntryMeaning(row: FormRow, f: Field, v: string)
    ensures RowEntry(row) == Some(Entry(f, v)) <==>
      && row.caption.Some? && row.caption.value != ""
      && row.value.Some? && row.value.value != ""
      && Trim(Lower(row.caption.value)) == Label(f)
      && v == Trim(row.value.value)
  {
    if Truthy(row.caption) && Truthy(row.value) {
      FieldOfLabel(Trim(Lower(row.caption.value)), f);
    }
  }

  function Get(d: StudentDetails, f: Field): string {
    match f
    case FullName => d.fullName
    case Email => d.email
    case BirthDate => d.birthDate
  }

  predicate Complete(d: StudentDetails) {
    |d.fullName| > 0 && |d.birthDate| > 0 && |d.email| > 0
  }

  predicate Assigns(row: FormRow, f: Field) {
    RowEntry(row).Some? && RowEntry(row).value.field == f
  }

  /**
   * The value of field `f` after the rows in order: the text of the last row that
   * assigns `f`, or the empty string when no row does.
   */
  function LastValue(rows: seq<FormRow>, f: Field): string
    decreases |rows|
  {
    if rows == [] then ""
    else
      var before := LastValue(rows[..|rows| - 1], f);
      match RowEntry(rows[|rows| - 1])
      case Some(e) => if e.field == f then e.text else before
      case None => before
  }

  /** When no row assigns `f`, its last value is the empty string. */
  lemma {:induction false} LastValueAbsent(rows: seq<FormRow>, f: Field)
    requires forall i :: 0 <= i < |rows| ==> !Assigns(rows[i], f)
    ensures LastValue(rows, f) == ""
    decreases |rows|
  {
    if rows != [] {
      var p := rows[..|rows| - 1];
      forall i | 0 <= i < |p| ensures !Assigns(p[i], f) {
        assert p[i] == rows[i];
      }
      LastValueAbsent(p, f);
    }
  }

  /** A non-empty last value of `f` is the text some row assigns to `f`. */
  lemma {:induction false} LastValueSource(rows: seq<FormRow>, f: Field)
    ensures var v := LastValue(rows, f);
      v == "" || exists i :: 0 <= i < |rows| && RowEntry(rows[i]) == Some(Entry(f, v))
    decreases |rows|
  {
    if rows != [] {
      var n := |rows| - 1;
      var p := rows[..n];
      LastValueSource(p, f);
      var v := LastValue(rows, f);
      if v != "" && v == LastValue(p, f) && !(RowEntry(rows[n]) == Some(Entry(f, v))) {
        var i :| 0 <= i < |p| && RowEntry(p[i]) == Some(Entry(f, v));
        assert p[i] == rows[i];
      }
    }
  }

  /** The three fields after all of `rows`, each taken from the last row that assigns it. */
  function Latest(rows: seq<FormRow>): StudentDetails {
    StudentDetails(LastValue(rows, FullName), LastValue(rows, Email), LastValue(rows, BirthDate))
  }

  /** Scanning stops at row `j`: it assigns nothing, and all three fields are already filled. */
  predicate StopsAt(rows: seq<FormRow>, j: nat) {
    j < |rows| && RowEntry(rows[j]).None? && Complete(Latest(rows[..j]))
  }

  /** The first row at or after `from` where scanning stops, or `|rows|` when there is none. */
  function StopIndex(rows: seq<FormRow>, from: nat): (j: nat)
    requires from <= |rows|
    ensures from <= j <= |rows|
    ensures j < |rows| ==> StopsAt(rows, j)
    ensures forall k :: from <= k < j ==> !StopsAt(rows, k)
    decreases |rows| - from
  {
    if from == |rows| then from
    else if StopsAt(rows, from) then from
    else StopIndex(rows, from + 1)
  }

  /** Scanning that has not stopped before row `i` and does not stop there goes on past it. */
  lemma StopIndexPast(rows: seq<FormRow>, i: nat)
    requires i < |rows| && i <= StopIndex(rows, 0)
    requires !StopsAt(rows, i)
    ensures i + 1 <= StopIndex(rows, 0)
  {
  }

  /** One more row updates the field it assigns and leaves the others alone. */
  lemma LatestSnoc(rows: seq<FormRow>, i: nat)
    requires i < |rows|
    ensures RowEntry(rows[i]).None? ==> Latest(rows[..i + 1]) == Latest(rows[..i])
    ensures RowEntry(rows[i]).Some? ==>
      Latest(rows[..i + 1]) == Record(Latest(rows[..i]), RowEntry(rows[i]).value)
  {
    assert rows[..i + 1][..i] == rows[..i];
  }

  function Record(d: StudentDetails, e: Entry): StudentDetails {
    match e.field
    case FullName => d.(fullName := e.text)
    case Email => d.(email := e.text)
    case BirthDate => d.(birthDate := e.text)
  }

  /**
   * `studentDetails`: walk the form rows; a row whose caption names a field stores its
   * trimmed value there and moves on; any other row ends the walk when all three fields
   * are filled. The result holds, for each field, the last value given to it before the
   * walk stopped.
   */
  method GetStudentDetails(rows: seq<FormRow>) returns (details: StudentDetails)
    ensures details == Latest(rows[..StopIndex(rows, 0)])
  {
    var fullName: string := "";
    var birthDate: string := "";
    var email: string := "";
    assert rows[..0] == [];
    for i := 0 to |rows|
      invariant StudentDetails(fullName, email, birthDate) == Latest(rows[..i])
      invariant i <= StopIndex(rows, 0)
    {
      LatestSnoc(rows, i);
      var captionText := rows[i].caption;
      var valueText := rows[i].value;
      if captionText.Some? && captionText.value != "" && valueText.Some? && valueText.value != "" {
        var caption := Trim(Lower(captionText.value));
        if caption == FullNameLabel {
          assert RowEntry(rows[i]) == Some(Entry(FullName, Trim(valueText.value)));
          StopIndexPast(rows, i);
          fullName := Trim(valueText.value);
          continue;
        }
        if caption == EmailLabel {
          assert RowEntry(rows[i]) == Some(Entry(Email, Trim(valueText.value)));
          StopIndexPast(rows, i);
          email := Trim(valueText.value);
          continue;
        }
        if caption == BirthDateLabel {
          assert RowEntry(rows[i]) == Some(Entry(BirthDate, Trim(valueText.value)));
          StopIndexPast(rows, i);
          birthDate := Trim(valueText.value);
          continue;
        }
      }
      assert RowEntry(rows[i]).None?;
      if |fullName| > 0 && |birthDate| > 0 && |email| > 0 {
        assert StopsAt(rows, i);
        return StudentDetails(fullName, email, birthDate);
      }
      StopIndexPast(rows, i);
    }
    assert rows[..|rows|] == rows;
    details := StudentDetails(fullName, email, birthDate);
  }

  /** A walk that ends before the last row ends with all three fields filled. */
  lemma EarlyStopIsComplete(rows: seq<FormRow>)
    ensures StopIndex(rows, 0) < |rows| ==> Complete(Latest(rows[..StopIndex(rows, 0)]))
  {
  }

  /** A field whose label no row carries (with both texts present) stays empty. */
  lemma AbsentLabelStaysEmpty(rows: seq<FormRow>, f: Field)
    requires forall i :: 0 <= i < |rows| ==> !Assigns(rows[i], f)
    ensures Get(Latest(rows[..StopIndex(rows, 0)]), f) == ""
  {
    var p := rows[..StopIndex(rows, 0)];
    forall i | 0 <= i < |p| ensures !Assigns(p[i], f) {
      assert p[i] == rows[i];
    }
    LastValueAbsent(p, f);
  }

  /** Every non-empty field holds the trimmed value of some row whose caption is that field's label. */
  lemma FieldProvenance(rows: seq<FormRow>, f: Field)
    ensures var v := Get(Latest(rows[..StopIndex(rows, 0)]), f);
      v == "" || exists i :: 0 <= i < |rows| && RowEntry(rows[i]) == Some(Entry(f, v))
  {
    var p := rows[..StopIndex(rows, 0)];
    var v := Get(Latest(p), f);
    LastValueSource(p, f);
    if v != "" {
      var i :| 0 <= i < |p| && RowEntry(p[i]) == Some(Entry(f, v));
      assert p[i] == rows[i];
    }
  }

  /** Rows after the one where scanning stops are never looked at. */
  lemma LaterRowsIgnored(rows: seq<FormRow>, more: seq<FormRow>)
    requires StopIndex(rows, 0) < |rows|
    ensures StopIndex(rows + more, 0) == StopIndex(rows, 0)
    ensures Latest((rows + more)[..StopIndex(rows + more, 0)]) == Latest(rows[..StopIndex(rows, 0)])
  {
    var j := StopIndex(rows, 0);
    var all := rows + more;
    forall k | 0 <= k <= j
      ensures all[..k] == rows[..k] && (k < |rows| ==> all[k] == rows[k])
    {
    }
    assert StopsAt(all, j);
    forall k | 0 <= k < j ensures !StopsAt(all, k) {
      assert !StopsAt(rows, k);
    }
    StopIndexFirst(all, j);
  }

  /** A stopping row with none before it is the stop index. */
  lemma StopIndexFirst(rows: seq<FormRow>, j: nat)
    requires StopsAt(rows, j)
    requires forall k :: 0 <= k < j ==> !StopsAt(rows, k)
    ensures StopIndex(rows, 0) == j
  {
  }

  /** Without a stopping row every row is scanned. */
  lemma NoStopScansAll(rows: seq<FormRow>)
    requires forall k :: 0 <= k < |rows| ==> !StopsAt(rows, k)
    ensures Latest(rows[..StopIndex(rows, 0)]) == Latest(rows)
  {
    assert rows[..|rows|] == rows;
  }

  /** The last row before the stop that assigns `f` decides `f`: a later duplicate label overwrites an earlier one. */
  lemma LastAssignmentWins(rows: seq<FormRow>, i: nat, f: Field)
    requires i < StopIndex(rows, 0) && Assigns(rows[i], f)
    requires forall k :: i < k < StopIndex(rows, 0) ==> !Assigns(rows[k], f)
    ensures Get(Latest(rows[..StopIndex(rows, 0)]), f) == RowEntry(rows[i]).value.text
  {
    var p := rows[..StopIndex(rows, 0)];
    forall k | i < k < |p| ensures !Assigns(p[k], f) {
      assert p[k] == rows[k];
    }
    LastValueAt(p, i, f);
  }

  /** The last value of `f` is the text of the last row that assigns it. */
  lemma {:induction false} LastValueAt(rows: seq<FormRow>, i: nat, f: Field)
    requires i < |rows| && Assigns(rows[i], f)
    requires forall k :: i < k < |rows| ==> !Assigns(rows[k], f)
    ensures LastValue(rows, f) == RowEntry(rows[i]).value.text
    decreases |rows|
  {
    var n := |rows| - 1;
    if i < n {
      var p := rows[..n];
      forall k | i < k < |p| ensures !Assigns(p[k], f) {
        assert p[k] == rows[k];
      }
      assert p[i] == rows[i];
      LastValueAt(p, i, f);
    }
  }

  // ---------------------------------------------------------------------------
  // Courses
  // ---------------------------------------------------------------------------

  /**
   * A row of the enrollment table: the texts of its cells, and the rows of the course
   * table that its expand button brings up (None when no popup appears).
   */
  datatype EnrollmentRow = EnrollmentRow(cells: seq<string>, popup: Option<seq<seq<string>>>)

  /** The year a period cell such as "2023/2024" gives for a semester index, as `+(text.split('/')[semester])`. */
  function PeriodYear(text: string, semester: nat): (y: Option<int>)
    ensures y.Some? <==> semester < |Split(text, '/')| && AllDigits(Trim(Split(text, '/')[semester]))
    ensures y.Some? ==> y.value >= 0
  {
    var years := Split(text, '/');
    if semester < |years| then ToNumber(years[semester]) else None
  }

  /** An enrollment row is the current period: its first cell's selected year is the current year. */
  predicate IsCurrent(p: EnrollmentRow, semester: nat, year: int) {
    |p.cells| > 0 && PeriodYear(p.cells[0], semester) == Some(year)
  }

  /** Where the search over periods from `from` on ends: the first row with no cells or that is current, else `|periods|`. */
  function SearchEnd(periods: seq<EnrollmentRow>, semester: nat, year: int, from: nat): (k: nat)
    requires from <= |periods|
    ensures from <= k <= |periods|
    ensures k < |periods| ==> |periods[k].cells| == 0 || IsCurrent(periods[k], semester, year)
    ensures forall j :: from <= j < k ==> |periods[j].cells| > 0 && !IsCurrent(periods[j], semester, year)
    decreases |periods| - from
  {
    if from == |periods| then from
    else if |periods[from].cells| == 0 || IsCurrent(periods[from], semester, year) then from
    else SearchEnd(periods, semester, year, from + 1)
  }

  /** The course-table rows of the first current period; none when no period is current. */
  function CourseRowsOf(periods: seq<EnrollmentRow>, semester: nat, year: int): (r: Result<seq<seq<string>>, Error>)
    ensures r.Ok? && r.value != [] ==>
      exists k :: 0 <= k < |periods| && IsCurrent(periods[k], semester, year) && periods[k].popup == Some(r.value)
    ensures r == Err(MissingCell) ==> exists k :: 0 <= k < |periods| && |periods[k].cells| == 0
    ensures r == Err(PopupTimeout) ==>
      exists k :: 0 <= k < |periods| && IsCurrent(periods[k], semester, year) && periods[k].popup.None?
    ensures r != Err(NoEnrollmentRows)
  {
    var k := SearchEnd(periods, semester, year, 0);
    if k == |periods| then Ok([])
    else if |periods[k].cells| == 0 then Err(MissingCell)
    else match periods[k].popup
      case None => Err(PopupTimeout)
      case Some(rows) => Ok(rows)
  }

  /** The first current period decides: its course table is used, whatever the rows after it hold. */
  lemma FirstCurrentPeriodWins(periods: seq<EnrollmentRow>, semester: nat, year: int, k: nat)
    requires k < |periods| && IsCurrent(periods[k], semester, year)
    requires forall j :: 0 <= j < k ==> |periods[j].cells| > 0 && !IsCurrent(periods[j], semester, year)
    ensures CourseRowsOf(periods, semester, year) ==
      if periods[k].popup.Some? then Ok(periods[k].popup.value) else Err(PopupTimeout)
  {
    SearchEndAt(periods, semester, year, k);
  }

  /** With every period readable and none current, the course list is empty. */
  lemma NoCurrentPeriod(periods: seq<EnrollmentRow>, semester: nat, year: int)
    requires forall j :: 0 <= j < |periods| ==> |periods[j].cells| > 0 && !IsCurrent(periods[j], semester, year)
    ensures CourseRowsOf(periods, semester, year) == Ok([])
  {
    SearchEndAt(periods, semester, year, |periods|);
  }

  /** A period without cells, reached before any current one, makes the search throw. */
  lemma MissingCellBeforeCurrent(periods: seq<EnrollmentRow>, semester: nat, year: int, k: nat)
    requires k < |periods| && |periods[k].cells| == 0
    requires forall j :: 0 <= j < k ==> |periods[j].cells| > 0 && !IsCurrent(periods[j], semester, year)
    ensures CourseRowsOf(periods, semester, year) == Err(MissingCell)
  {
    SearchEndAt(periods, semester, year, k);
  }

  /** Once the search has ended within `periods`, appending rows changes nothing. */
  lemma LaterPeriodsIgnored(periods: seq<EnrollmentRow>, more: seq<EnrollmentRow>, semester: nat, year: int)
    requires SearchEnd(periods, semester, year, 0) < |periods|
    ensures CourseRowsOf(periods + more, semester, year) == CourseRowsOf(periods, semester, year)
  {
    var k := SearchEnd(periods, semester, year, 0);
    var all := periods + more;
    assert all[k] == periods[k];
    forall j | 0 <= j < k ensures |all[j].cells| > 0 && !IsCurrent(all[j], semester, year) {
      assert all[j] == periods[j];
    }
    SearchEndAt(all, semester, year, k);
  }

  /** The search ends at the first row that has no cells or is current. */
  lemma {:induction false} SearchEndAt(periods: seq<EnrollmentRow>, semester: nat, year: int, k: nat)
    requires k <= |periods|
    requires k < |periods| ==> |periods[k].cells| == 0 || IsCurrent(periods[k], semester, year)
    requires forall j :: 0 <= j < k ==> |periods[j].cells| > 0 && !IsCurrent(periods[j], semester, year)
    ensures SearchEnd(periods, semester, year, 0) == k
  {
  }

  /** The period cell "a/b" gives `a` for index 0 and `b` for index 1. */
  lemma {:induction false} AcademicYearHalves(a: nat, b: nat)
    ensures PeriodYear(Decimal(a) + "/" + Decimal(b), 0) == Some(a)
    ensures PeriodYear(Decimal(a) + "/" + Decimal(b), 1) == Some(b)
  {
    var da, db := Decimal(a), Decimal(b);
    SplitAtSeparator(da, '/', db);
    SplitNoSeparator(db, '/');
    assert Split(da + "/" + db, '/') == [da, db];
    ToNumberDecimal(a);
    ToNumberDecimal(b);
  }

  /**
   * The academic year "a/(a+1)" is the current period from August of year `a` to July of
   * year `a + 1`, and in no other month of those years.
   */
  lemma CurrentAcademicYear(a: nat, month: int, year: int)
    requires 0 <= month <= 11
    ensures IsCurrent(EnrollmentRow([Decimal(a) + "/" + Decimal(a + 1)], None), SemesterNumber(month), year)
      <==> (month <= 6 && year == a + 1) || (month >= 7 && year == a)
  {
    AcademicYearHalves(a, a + 1);
  }

  /** "2023/2024" gives 2024 for index 1 and 2023 for index 0. */
  lemma PeriodYearExample()
    ensures PeriodYear("2023/2024", 1) == Some(2024)
    ensures PeriodYear("2023/2024", 0) == Some(2023)
  {
    var d3, d4 := Decimal(2023), Decimal(2024);
    assert d3 == Decimal(202) + ['3'];
    assert Decimal(202) == Decimal(20) + ['2'];
    assert Decimal(20) == Decimal(2) + ['0'];
    assert d4 == Decimal(202) + ['4'];
    AcademicYearHalves(2023, 2024);
    assert d3 + "/" + d4 == "2023/2024";
  }

  /** A course row kept in the list: its trimmed first cell ends with `U`. */
  predicate IsCourse(row: seq<string>) {
    |row| > 0 && EndsWith(Trim(row[0]), 'U')
  }

  /** A row is kept exactly when its first cell has a `U` followed by nothing but white space. */
  lemma IsCourseMeaning(row: seq<string>)
    ensures IsCourse(row) <==>
      |row| > 0 && exists k :: 0 <= k < |row[0]| && row[0][k] == 'U' && AllWhite(row[0][k + 1..])
  {
    if |row| > 0 {
      var s := row[0];
      var a, b := TrimPadding(s);
      if IsCourse(row) {
        assert s[a..b][b - a - 1] == s[b - 1];
        assert s[b - 1 + 1..] == s[b..];
      }
      if k :| 0 <= k < |s| && s[k] == 'U' && AllWhite(s[k + 1..]) {
        forall i | 0 <= i < a ensures IsWhite(s[i]) {
          assert s[..a][i] == s[i];
        }
        forall i | b <= i < |s| ensures IsWhite(s[i]) {
          assert s[b..][i - b] == s[i];
        }
        forall i | k < i < |s| ensures IsWhite(s[i]) {
          assert s[k + 1..][i - (k + 1)] == s[i];
        }
        assert a <= k < b;
        assert s[a..b][b - a - 1] == s[b - 1];
        assert b - 1 == k;
      }
    }
  }

  /** A course row the filter can read without throwing: a first cell, and a second one when it is kept. */
  predicate Readable(row: seq<string>) {
    |row| > 0 && (IsCourse(row) ==> |row| >= 2)
  }

  function CourseOf(row: seq<string>): Course
    requires |row| >= 2
  {
    Course(Trim(row[0]), Trim(row[1]))
  }

  /** The positions of the kept rows, in increasing order, and all of them. */
  function KeptIndices(rows: seq<seq<string>>): seq<nat>
    decreases |rows|
  {
    if rows == [] then []
    else
      var n := |rows| - 1;
      var before := KeptIndices(rows[..n]);
      if IsCourse(rows[n]) then before + [n] else before
  }

  /** The kept positions are increasing, each names a course row, and every course row is among them. */
  lemma {:induction false} KeptIndicesExact(rows: seq<seq<string>>)
    ensures var ks := KeptIndices(rows);
      && (forall k :: 0 <= k < |ks| ==> ks[k] < |rows| && IsCourse(rows[ks[k]]))
      && (forall k, l :: 0 <= k < l < |ks| ==> ks[k] < ks[l])
      && (forall i :: 0 <= i < |rows| && IsCourse(rows[i]) ==> i in ks)
    decreases |rows|
  {
    if rows != [] {
      var n := |rows| - 1;
      var p := rows[..n];
      KeptIndicesExact(p);
      assert forall i :: 0 <= i < n ==> p[i] == rows[i];
    }
  }

  /** The course list the filter loop builds from a course table, row by row. */
  function ExtractCourses(rows: seq<seq<string>>): (r: Result<seq<Course>, Error>)
    ensures r.Err? ==> r.error == MissingCell
    decreases |rows|
  {
    if rows == [] then Ok([])
    else
      var n := |rows| - 1;
      match ExtractCourses(rows[..n])
      case Err(e) => Err(e)
      case Ok(cs) =>
        var row := rows[n];
        if |row| == 0 then Err(MissingCell)
        else if IsCourse(row) then
          if |row| < 2 then Err(MissingCell) else Ok(cs + [CourseOf(row)])
        else Ok(cs)
  }

  /** The filter throws exactly when some row is unreadable. */
  lemma {:induction false} ExtractOk(rows: seq<seq<string>>)
    ensures ExtractCourses(rows).Ok? <==> forall i :: 0 <= i < |rows| ==> Readable(rows[i])
    decreases |rows|
  {
    if rows != [] {
      var n := |rows| - 1;
      ExtractOk(rows[..n]);
      assert forall i :: 0 <= i < n ==> rows[..n][i] == rows[i];
    }
  }

  /**
   * The filter keeps exactly the rows whose trimmed first cell ends with `U`, in input
   * order, each as its trimmed first and second cells.
   */
  lemma {:induction false} ExtractExact(rows: seq<seq<string>>)
    requires ExtractCourses(rows).Ok?
    ensures var cs := ExtractCourses(rows).value; var ks := KeptIndices(rows);
      && |cs| == |ks|
      && forall k :: 0 <= k < |cs| ==> ks[k] < |rows| && |rows[ks[k]]| >= 2 && cs[k] == CourseOf(rows[ks[k]])
    decreases |rows|
  {
    if rows != [] {
      var n := |rows| - 1;
      var p := rows[..n];
      ExtractExact(p);
      var cs0, ks0 := ExtractCourses(p).value, KeptIndices(p);
      forall k | 0 <= k < |ks0| ensures ks0[k] < n && rows[ks0[k]] == p[ks0[k]] {
      }
      if IsCourse(rows[n]) {
        assert ExtractCourses(rows).value == cs0 + [CourseOf(rows[n])];
        assert KeptIndices(rows) == ks0 + [n];
      } else {
        assert ExtractCourses(rows).value == cs0;
        assert KeptIndices(rows) == ks0;
      }
    }
  }

  /** Every listed course has a trimmed code ending with `U`. */
  lemma CourseCodesWellFormed(rows: seq<seq<string>>)
    requires ExtractCourses(rows).Ok?
    ensures forall c :: c in ExtractCourses(rows).value ==> EndsWith(c.code, 'U') && Trim(c.code) == c.code
  {
    ExtractExact(rows);
    var cs := ExtractCourses(rows).value;
    var ks := KeptIndices(rows);
    forall c | c in cs ensures EndsWith(c.code, 'U') && Trim(c.code) == c.code {
      var k :| 0 <= k < |cs| && cs[k] == c;
      TrimIdempotent(rows[ks[k]][0]);
    }
  }

  /** Of a header row, a numeric row and a real course row, only the course is listed. */
  lemma CourseFilterExample()
    ensures ExtractCourses([["INFO", "Intro"], ["101", "Bad"], ["LIC3U", "Systems"]])
      == Ok([Course("LIC3U", "Systems")])
  {
    var rows := [["INFO", "Intro"], ["101", "Bad"], ["LIC3U", "Systems"]];
    TrimUnpadded("INFO");
    TrimUnpadded("101");
    TrimUnpadded("LIC3U");
    TrimUnpadded("Systems");
    assert !IsCourse(rows[0]) && !IsCourse(rows[1]) && IsCourse(rows[2]);
    assert ExtractCourses(rows[..1]) == Ok([]) by {
      assert rows[..1][..0] == [];
    }
    assert ExtractCourses(rows[..2]) == Ok([]) by {
      assert rows[..2][..1] == rows[..1];
    }
    assert CourseOf(rows[2]) == Course("LIC3U", "Systems");
    assert ExtractCourses(rows) == Ok([] + [CourseOf(rows[2])]);
    assert [] + [CourseOf(rows[2])] == [Course("LIC3U", "Systems")];
  }

  /** The whole of `courseDetails`: find the current period, then filter its course table. */
  function CourseList(periods: seq<EnrollmentRow>, month: int, year: int): (r: Result<seq<Course>, Error>)
    ensures r == Err(NoEnrollmentRows) <==> periods == []
  {
    if periods == [] then Err(NoEnrollmentRows)
    else match CourseRowsOf(periods, SemesterNumber(month), year)
      case Err(e) => Err(e)
      case Ok(rows) => ExtractCourses(rows)
  }

  /** When enrollment rows exist, all readable and none current, the course list is empty. */
  lemma NoCurrentPeriodNoCourses(periods: seq<EnrollmentRow>, month: int, year: int)
    requires periods != []
    requires forall j :: 0 <= j < |periods| ==>
      |periods[j].cells| > 0 && !IsCurrent(periods[j], SemesterNumber(month), year)
    ensures CourseList(periods, month, year) == Ok([])
  {
    NoCurrentPeriod(periods, SemesterNumber(month), year);
  }

  /**
   * `courseDetails`: scan the enrollment rows for the first whose selected year is the
   * current year and take the course table it opens; then keep the rows whose trimmed
   * code ends with `U`.
   */
  method GetCourseDetails(periods: seq<EnrollmentRow>, month: int, currentYear: int)
    returns (r: Result<seq<Course>, Error>)
    ensures r == CourseList(periods, month, currentYear)
    ensures r == Err(NoEnrollmentRows) <==> periods == []
    ensures r.Ok? ==> forall c :: c in r.value ==> EndsWith(c.code, 'U') && Trim(c.code) == c.code
  {
    if |periods| == 0 {
      return Err(NoEnrollmentRows);
    }
    var semester := SemesterNumber(month);
    var courseRows: seq<seq<string>> := [];
    for i := 0 to |periods|
      invariant forall j :: 0 <= j < i ==> |periods[j].cells| > 0 && !IsCurrent(periods[j], semester, currentYear)
      invariant courseRows == []
    {
      var tableCells := periods[i].cells;
      if |tableCells| == 0 {
        return Err(MissingCell);
      }
      var years := Split(tableCells[0], '/');
      var year := if semester < |years| then ToNumber(years[semester]) else None;
      if year == Some(currentYear) {
        if periods[i].popup.None? {
          return Err(PopupTimeout);
        }
        courseRows := periods[i].popup.value;
        assert CourseRowsOf(periods, semester, currentYear) == Ok(courseRows);
        break;
      }
    }
    assert CourseRowsOf(periods, semester, currentYear) == Ok(courseRows);
    var studentCourseList: seq<Course> := [];
    assert courseRows[..0] == [];
    for j := 0 to |courseRows|
      invariant ExtractCourses(courseRows[..j]) == Ok(studentCourseList)
    {
      assert courseRows[..j + 1][..j] == courseRows[..j];
      var courseRowColumns := courseRows[j];
      if |courseRowColumns| == 0 {
        ExtractOk(courseRows);
        return Err(MissingCell);
      }
      var courseCode := courseRowColumns[0];
      if courseCode != "" && EndsWith(Trim(courseCode), 'U') {
        if |courseRowColumns| < 2 {
          ExtractOk(courseRows);
          return Err(MissingCell);
        }
        studentCourseList := studentCourseList + [Course(Trim(courseCode), Trim(courseRowColumns[1]))];
      }
    }
    assert courseRows[..|courseRows|] == courseRows;
    CourseCodesWellFormed(courseRows);
    r := Ok(studentCourseList);
  }
}
