/** The integrity check run on the saved workbook: both tables present,
    primary keys unique, no fully duplicated rows, every expected column
    present, and every course's university id naming an existing
    university. The workbook is given as a value; opening the file is not
    modelled. */
module Verify {

  import opened Wrappers
  import opened Ordered

  /** One table of the workbook as read back: its sheet name, header row
      and data rows. A row shorter than the header reads as empty cells
      for the missing columns. */
  datatype Sheet = Sheet(name: string, columns: seq<string>, rows: seq<seq<string>>)

  type Workbook = seq<Sheet>

  const UniversitiesSheet: string := "Universities"
  const CoursesSheet: string := "Courses"

  const UniversityColumns: seq<string> := ["university_id", "university_name", "country", "city", "website"]
  const CourseColumns: seq<string> :=
    ["course_id", "university_id", "course_name", "level", "discipline", "duration", "fees", "eligibility"]

  /** Why verification failed; each case is one of the checks. */
  datatype VerifyError =
    | MissingSheet(sheet: string)
    | MissingKey(column: string)
    | NotUnique(column: string)
    | DuplicateRows(sheet: string)
    | MissingColumn(sheet: string)
    | BrokenReference

  datatype Outcome = Pass | Fail(error: VerifyError)

  predicate Distinct<T(==)>(s: seq<T>) {
    forall a, b :: 0 <= a < b < |s| ==> s[a] != s[b]
  }

  // ---------------------------------------------------------------------
  //  Reading a workbook
  // ---------------------------------------------------------------------

  predicate HasSheet(wb: Workbook, name: string) {
    exists i :: 0 <= i < |wb| && wb[i].name == name
  }

  /** The first sheet with the given name. */
  function FindSheet(wb: Workbook, name: string): (r: Option<Sheet>)
    ensures r.Some? <==> HasSheet(wb, name)
    ensures r.Some? ==> r.value in wb && r.value.name == name
  {
    match FirstIndex(wb, (s: Sheet) => s.name == name)
    case None => None
    case Some(i) => Some(wb[i])
  }

  /** Position of the first header cell equal to `c`. */
  function ColumnIndex(columns: seq<string>, c: string): (r: Option<nat>)
    ensures r.Some? ==> r.value < |columns| && columns[r.value] == c && c !in columns[..r.value]
    ensures r.None? <==> c !in columns
    decreases |columns|
  {
    if |columns| == 0 then None
    else if columns[0] == c then Some(0)
    else match ColumnIndex(columns[1..], c)
      case None => None
      case Some(k) => assert columns[..k + 1] == [columns[0]] + columns[1..][..k]; Some(k + 1)
  }

  function Cell(row: seq<string>, j: nat): string {
    if j < |row| then row[j] else ""
  }

  /** The values of column `j`, one per row. */
  function ColumnAt(s: Sheet, j: nat): (vs: seq<string>)
    ensures |vs| == |s.rows|
    ensures forall r :: 0 <= r < |s.rows| ==> vs[r] == Cell(s.rows[r], j)
  {
    seq(|s.rows|, r requires 0 <= r < |s.rows| => Cell(s.rows[r], j))
  }

  /** Row `r` over all the header's columns. */
  function Record(s: Sheet, r: nat): (rec: seq<string>)
    requires r < |s.rows|
    ensures |rec| == |s.columns|
    ensures forall j :: 0 <= j < |s.columns| ==> rec[j] == Cell(s.rows[r], j)
  {
    seq(|s.columns|, j requires 0 <= j < |s.columns| => Cell(s.rows[r], j))
  }

  // ---------------------------------------------------------------------
  //  The checks
  // ---------------------------------------------------------------------

  /** The column named `c` exists and its values are pairwise distinct. */
  predicate UniqueColumn(s: Sheet, c: string) {
    match ColumnIndex(s.columns, c)
    case None => false
    case Some(j) => Distinct(ColumnAt(s, j))
  }

  /** No two rows agree on every column. */
  predicate NoDuplicateRows(s: Sheet) {
    forall a, b :: 0 <= a < b < |s.rows| ==> Record(s, a) != Record(s, b)
  }

  predicate HasColumns(s: Sheet, expected: seq<string>) {
    forall c :: c in expected ==> c in s.columns
  }

  /** Every course's `university_id` is one of the universities' ids. */
  predicate ReferencesResolve(unis: Sheet, courses: Sheet) {
    match (ColumnIndex(unis.columns, "university_id"), ColumnIndex(courses.columns, "university_id"))
    case (Some(u), Some(c)) =>
      forall r :: 0 <= r < |courses.rows| ==> Cell(courses.rows[r], c) in ColumnAt(unis, u)
    case _ => false
  }

  /** The two tables pass every check. */
  predicate TablesPass(unis: Sheet, courses: Sheet) {
    && UniqueColumn(unis, "university_id")
    && UniqueColumn(courses, "course_id")
    && NoDuplicateRows(unis)
    && NoDuplicateRows(courses)
    && HasColumns(unis, UniversityColumns)
    && HasColumns(courses, CourseColumns)
    && ReferencesResolve(unis, courses)
  }

  /** The workbook passes every check of `verify_data`. */
  predicate Valid(wb: Workbook) {
    match (FindSheet(wb, UniversitiesSheet), FindSheet(wb, CoursesSheet))
    case (Some(u), Some(c)) => TablesPass(u, c)
    case _ => false
  }

  /** `verify_data`, checks in the order the script makes them; the first
      that fails decides the error. It passes exactly when every check
      holds. A missing key column fails where it is first looked up, as
      the lookup itself raises. */
  function VerifyData(wb: Workbook): (o: Outcome)
    ensures o.Pass? <==> Valid(wb)
    ensures !HasSheet(wb, UniversitiesSheet) ==> o == Fail(MissingSheet(UniversitiesSheet))
    ensures HasSheet(wb, UniversitiesSheet) && !HasSheet(wb, CoursesSheet) ==> o == Fail(MissingSheet(CoursesSheet))
    ensures o.Fail? && o.error == BrokenReference ==>
              FindSheet(wb, UniversitiesSheet).Some? && FindSheet(wb, CoursesSheet).Some? &&
              !ReferencesResolve(FindSheet(wb, UniversitiesSheet).value, FindSheet(wb, CoursesSheet).value)
  {
    match (FindSheet(wb, UniversitiesSheet), FindSheet(wb, CoursesSheet))
    case (None, _) => Fail(MissingSheet(UniversitiesSheet))
    case (_, None) => Fail(MissingSheet(CoursesSheet))
    case (Some(unis), Some(courses)) =>
      if UniversityColumns[0] !in unis.columns then Fail(MissingKey("university_id"))
      else if !UniqueColumn(unis, "university_id") then Fail(NotUnique("university_id"))
      else if CourseColumns[0] !in courses.columns then Fail(MissingKey("course_id"))
      else if !UniqueColumn(courses, "course_id") then Fail(NotUnique("course_id"))
      else if !NoDuplicateRows(unis) then Fail(DuplicateRows(UniversitiesSheet))
      else if !NoDuplicateRows(courses) then Fail(DuplicateRows(CoursesSheet))
      else if !HasColumns(unis, UniversityColumns) then Fail(MissingColumn(UniversitiesSheet))
      else if !HasColumns(courses, CourseColumns) then Fail(MissingColumn(CoursesSheet))
      else if !ReferencesResolve(unis, courses) then Fail(BrokenReference)
      else Pass
  }

  /** The script's exit status: 0 when every check passes, 1 otherwise. */
  function ExitStatus(wb: Workbook): (code: int)
    ensures code == 0 <==> Valid(wb)
    ensures code == 1 <==> !Valid(wb)
  {
    match VerifyData(wb)
    case Pass => 0
    case Fail(_) => 1
  }

  /** A unique key column already rules out fully duplicated rows, so the
      duplicate-row check can only fail where a key check fails first. */
  lemma UniqueKeyImpliesNoDuplicateRows(s: Sheet, c: string)
    requires UniqueColumn(s, c)
    ensures NoDuplicateRows(s)
  {
    var j := ColumnIndex(s.columns, c).value;
    forall a, b | 0 <= a < b < |s.rows|
      ensures Record(s, a) != Record(s, b)
    {
      assert Record(s, a)[j] == ColumnAt(s, j)[a] != ColumnAt(s, j)[b] == Record(s, b)[j];
    }
  }
}
