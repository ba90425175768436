/** What `verify_data` demands of the saved tables, restated on the rows
    themselves, and what the merge step of a run does and does not
    guarantee about it. */
module Integrity {

  import opened Wrappers
  import opened Verify
  import opened Store
  import Wiki
  import Dedup

  function UniversityIds(us: seq<UniversityRow>): (ids: seq<string>)
    ensures |ids| == |us| && forall i :: 0 <= i < |us| ==> ids[i] == us[i].id
  {
    seq(|us|, i requires 0 <= i < |us| => us[i].id)
  }

  function CourseIds(cs: seq<CourseRow>): (ids: seq<string>)
    ensures |ids| == |cs| && forall i :: 0 <= i < |cs| ==> ids[i] == cs[i].id
  {
    seq(|cs|, i requires 0 <= i < |cs| => cs[i].id)
  }

  /** Every course names an existing university. */
  predicate ReferencesExist(t: Tables) {
    forall k :: 0 <= k < |t.courses| ==> t.courses[k].universityId in UniversityIds(t.universities)
  }

  /** Unique university ids, unique course ids, and every course naming
      an existing university. */
  predicate TablesConsistent(t: Tables) {
    && Distinct(UniversityIds(t.universities))
    && Distinct(CourseIds(t.courses))
    && ReferencesExist(t)
  }

  /** Both tables have rows, so both sheets are written with a header. */
  predicate NonEmpty(t: Tables) {
    |t.universities| > 0 && |t.courses| > 0
  }

  /** Consistent tables with a course have a university too. */
  lemma CourseMakesNonEmpty(t: Tables)
    requires TablesConsistent(t) && |t.courses| > 0
    ensures NonEmpty(t)
  {
    assert t.courses[0].universityId in UniversityIds(t.universities);
  }

  // ---------------------------------------------------------------------
  //  The check on the written workbook, in terms of the rows
  // ---------------------------------------------------------------------

  lemma WorkbookSheets(t: Tables)
    ensures FindSheet(ToWorkbook(t), UniversitiesSheet) == Some(ToWorkbook(t)[0])
    ensures FindSheet(ToWorkbook(t), CoursesSheet) == Some(ToWorkbook(t)[1])
  {
    var wb := ToWorkbook(t);
    assert wb[0].name == UniversitiesSheet;
    assert wb[0].name != CoursesSheet && wb[1].name == CoursesSheet;
  }

  lemma KeyColumns()
    ensures ColumnIndex(UniversityColumns, "university_id") == Some(0)
    ensures ColumnIndex(CourseColumns, "course_id") == Some(0)
    ensures ColumnIndex(CourseColumns, "university_id") == Some(1)
  {
    FirstColumnIndex(UniversityColumns, 0);
    FirstColumnIndex(CourseColumns, 0);
    FirstColumnIndex(CourseColumns, 1);
  }

  /** The key checks of the script, on the written sheets: a table with
      no rows has no key column to look up. */
  lemma KeyChecks(t: Tables)
    ensures UniqueColumn(ToWorkbook(t)[0], "university_id") <==>
              |t.universities| > 0 && Distinct(UniversityIds(t.universities))
    ensures UniqueColumn(ToWorkbook(t)[1], "course_id") <==> |t.courses| > 0 && Distinct(CourseIds(t.courses))
  {
    UniversityKeyCheck(t);
    CourseKeyCheck(t);
  }

  lemma UniversityKeyCheck(t: Tables)
    ensures UniqueColumn(ToWorkbook(t)[0], "university_id") <==>
              |t.universities| > 0 && Distinct(UniversityIds(t.universities))
  {
    var us := ToWorkbook(t)[0];
    if |t.universities| == 0 {
      assert ColumnIndex(us.columns, "university_id") == None;
    } else {
      KeyColumns();
      assert ColumnIndex(us.columns, "university_id") == Some(0);
      UniversityIdCells(t);
    }
  }

  lemma UniversityIdCells(t: Tables)
    ensures ColumnAt(ToWorkbook(t)[0], 0) == UniversityIds(t.universities)
  {
    var us := ToWorkbook(t)[0];
    forall r | 0 <= r < |t.universities|
      ensures Cell(us.rows[r], 0) == t.universities[r].id
    {
      assert us.rows[r] == UniversityCells(t.universities[r]);
    }
  }

  lemma CourseKeyCheck(t: Tables)
    ensures UniqueColumn(ToWorkbook(t)[1], "course_id") <==> |t.courses| > 0 && Distinct(CourseIds(t.courses))
  {
    var cs := ToWorkbook(t)[1];
    if |t.courses| == 0 {
      assert ColumnIndex(cs.columns, "course_id") == None;
    } else {
      KeyColumns();
      assert ColumnIndex(cs.columns, "course_id") == Some(0);
      CourseIdCells(t);
    }
  }

  lemma CourseIdCells(t: Tables)
    ensures ColumnAt(ToWorkbook(t)[1], 0) == CourseIds(t.courses)
  {
    var cs := ToWorkbook(t)[1];
    forall r | 0 <= r < |t.courses|
      ensures Cell(cs.rows[r], 0) == t.courses[r].id
    {
      assert cs.rows[r] == CourseCells(t.courses[r]);
    }
  }

  /** The reference check of the script, on the written sheets: both key
      columns must exist, and every course's university id must be one. */
  lemma ReferenceCheck(t: Tables)
    ensures ReferencesResolve(ToWorkbook(t)[0], ToWorkbook(t)[1]) <==> NonEmpty(t) && ReferencesExist(t)
  {
    var us := ToWorkbook(t)[0];
    var cs := ToWorkbook(t)[1];
    if !NonEmpty(t) {
      assert us.columns == [] || cs.columns == [];
      assert ColumnIndex([], "university_id") == None;
      return;
    }
    SheetKeys(t);
    ReferencesAtKeys(us, cs, 0, 1);
    CourseUniversityCells(t);
    if ReferencesResolve(us, cs) {
      forall k | 0 <= k < |t.courses|
        ensures t.courses[k].universityId in UniversityIds(t.universities)
      {
        assert Cell(cs.rows[k], 1) in ColumnAt(us, 0);
      }
    } else {
      var r :| 0 <= r < |cs.rows| && Cell(cs.rows[r], 1) !in ColumnAt(us, 0);
      assert t.courses[r].universityId !in UniversityIds(t.universities);
    }
  }

  lemma SheetKeys(t: Tables)
    requires NonEmpty(t)
    ensures ColumnIndex(ToWorkbook(t)[0].columns, "university_id") == Some(0)
    ensures ColumnIndex(ToWorkbook(t)[1].columns, "university_id") == Some(1)
  {
    KeyColumns();
  }

  lemma ReferencesAtKeys(us: Sheet, cs: Sheet, u: nat, c: nat)
    requires ColumnIndex(us.columns, "university_id") == Some(u)
    requires ColumnIndex(cs.columns, "university_id") == Some(c)
    ensures ReferencesResolve(us, cs) <==> forall r :: 0 <= r < |cs.rows| ==> Cell(cs.rows[r], c) in ColumnAt(us, u)
  {
  }

  lemma CourseUniversityCells(t: Tables)
    ensures ColumnAt(ToWorkbook(t)[0], 0) == UniversityIds(t.universities)
    ensures |ToWorkbook(t)[1].rows| == |t.courses|
    ensures forall r :: 0 <= r < |t.courses| ==> Cell(ToWorkbook(t)[1].rows[r], 1) == t.courses[r].universityId
  {
    var cs := ToWorkbook(t)[1];
    forall r | 0 <= r < |t.courses|
      ensures Cell(cs.rows[r], 1) == t.courses[r].universityId
    {
      assert cs.rows[r] == CourseCells(t.courses[r]);
    }
  }

  /** Written out as the two sheets, tables pass every check of the
      verification script exactly when both have rows and they are
      consistent. */
  lemma ValidIffConsistent(t: Tables)
    ensures Valid(ToWorkbook(t)) <==> NonEmpty(t) && TablesConsistent(t)
  {
    var us := ToWorkbook(t)[0];
    var cs := ToWorkbook(t)[1];
    WorkbookSheets(t);
    assert Valid(ToWorkbook(t)) <==> TablesPass(us, cs);
    KeyChecks(t);
    ReferenceCheck(t);
    if NonEmpty(t) && TablesConsistent(t) {
      assert HasColumns(us, UniversityColumns) && HasColumns(cs, CourseColumns);
      UniqueKeyImpliesNoDuplicateRows(us, "university_id");
      UniqueKeyImpliesNoDuplicateRows(cs, "course_id");
    }
  }

  /** Consistent tables with rows, written out, pass the verification
      script. */
  lemma ConsistentPasses(t: Tables)
    requires NonEmpty(t) && TablesConsistent(t)
    ensures VerifyData(ToWorkbook(t)) == Pass
  {
    ValidIffConsistent(t);
  }

  /** A table without rows is written without a header, and the script
      fails at the lookup of its key column. */
  lemma EmptyTableFails(t: Tables)
    requires !NonEmpty(t)
    ensures |t.universities| == 0 ==> VerifyData(ToWorkbook(t)) == Fail(MissingKey("university_id"))
    ensures |t.universities| > 0 && Distinct(UniversityIds(t.universities)) ==>
              VerifyData(ToWorkbook(t)) == Fail(MissingKey("course_id"))
    ensures VerifyData(ToWorkbook(t)) != Pass
  {
    WorkbookSheets(t);
    KeyChecks(t);
    ValidIffConsistent(t);
  }

  /** Inconsistent tables, written out, fail it. */
  lemma InconsistentFails(t: Tables)
    requires !TablesConsistent(t)
    ensures VerifyData(ToWorkbook(t)) != Pass
  {
    ValidIffConsistent(t);
  }

  // ---------------------------------------------------------------------
  //  A fresh run
  // ---------------------------------------------------------------------

  predicate DistinctTargetIds(ts: seq<TargetResult>) {
    forall a, b :: 0 <= a < b < |ts| ==> ts[a].universityId != ts[b].universityId
  }

  predicate DistinctTargetNames(ts: seq<TargetResult>) {
    forall a, b :: 0 <= a < b < |ts| ==> UniversityRowOf(ts[a]).name != UniversityRowOf(ts[b]).name
  }

  /** Some institution contributes at least one course. */
  predicate SomeCourse(ts: seq<TargetResult>) {
    exists i :: 0 <= i < |ts| && |ts[i].courses| > 0
  }

  /** With nothing saved, the merge deduplicates the run's own rows. */
  lemma CombineFresh(ts: seq<TargetResult>)
    ensures Combine(None, Run(ts)) == Tables(Dedup.DropDuplicatesKeepLast(RunUniversities(ts), UniversityKey),
                                             Dedup.DropDuplicatesKeepLast(RunCourses(ts), CourseKey))
  {
    assert [] + RunUniversities(ts) == RunUniversities(ts);
    assert [] + RunCourses(ts) == RunCourses(ts);
  }

  /** The rows of a fresh run, merged, are consistent, given that the
      generated university ids and course ids are all distinct and that
      no two institutions resolve to the same name. None of the three is
      guaranteed by the program: the ids are random 8-character prefixes,
      and every unresolved institution is named "Not Available". */
  lemma FreshRunConsistent(ts: seq<TargetResult>)
    requires DistinctTargetIds(ts)
    requires Distinct(RunCourseIds(ts))
    requires DistinctTargetNames(ts)
    ensures Combine(None, Run(ts)).universities == RunUniversities(ts)
    ensures TablesConsistent(Combine(None, Run(ts)))
  {
    CombineFresh(ts);
    Dedup.DistinctKeysUnchanged(RunUniversities(ts), UniversityKey);
    DedupedCourseIdsDistinct(ts);
    DedupedCoursesRefer(ts);
  }

  lemma DedupedCourseIdsDistinct(ts: seq<TargetResult>)
    requires Distinct(RunCourseIds(ts))
    ensures Distinct(CourseIds(Dedup.DropDuplicatesKeepLast(RunCourses(ts), CourseKey)))
  {
    RunCoursesIds(ts);
    Dedup.DropKeepsDistinct(RunCourses(ts), CourseKey, (c: CourseRow) => c.id);
  }

  lemma DedupedCoursesRefer(ts: seq<TargetResult>)
    ensures var mc := Dedup.DropDuplicatesKeepLast(RunCourses(ts), CourseKey);
            forall k :: 0 <= k < |mc| ==> mc[k].universityId in UniversityIds(RunUniversities(ts))
  {
    var cs := RunCourses(ts);
    var mc := Dedup.DropDuplicatesKeepLast(cs, CourseKey);
    Dedup.DropKeepsRows(cs, CourseKey);
    forall k | 0 <= k < |mc|
      ensures mc[k].universityId in UniversityIds(RunUniversities(ts))
    {
      assert mc[k] in cs;
      var p :| 0 <= p < |cs| && cs[p] == mc[k];
      RunCoursesRefer(ts, p);
      var i :| 0 <= i < |ts| && cs[p].universityId == ts[i].universityId;
      assert UniversityIds(RunUniversities(ts))[i] == ts[i].universityId;
    }
  }

  /** Under the same hypotheses, and with at least one course scraped,
      the workbook a fresh run writes passes the verification script. */
  lemma FreshRunVerifies(ts: seq<TargetResult>)
    requires DistinctTargetIds(ts)
    requires Distinct(RunCourseIds(ts))
    requires DistinctTargetNames(ts)
    requires SomeCourse(ts)
    ensures VerifyData(ToWorkbook(Combine(None, Run(ts)))) == Pass
    ensures ExitStatus(ToWorkbook(Combine(None, Run(ts)))) == 0
  {
    FreshRunConsistent(ts);
    FreshRunHasCourse(ts);
    CourseMakesNonEmpty(Combine(None, Run(ts)));
    ConsistentPasses(Combine(None, Run(ts)));
  }

  lemma FreshRunHasCourse(ts: seq<TargetResult>)
    requires SomeCourse(ts)
    ensures |Combine(None, Run(ts)).courses| > 0
  {
    var i :| 0 <= i < |ts| && |ts[i].courses| > 0;
    RunCoursesContain(ts, i, 0);
    CombineFresh(ts);
    Dedup.DropKeepsNonEmpty(RunCourses(ts), CourseKey);
  }

  /** A fresh run that scrapes no course at all writes a Courses sheet
      without a header, and fails verification. */
  lemma NoCourseRunFails(ts: seq<TargetResult>)
    requires forall i :: 0 <= i < |ts| ==> |ts[i].courses| == 0
    ensures VerifyData(ToWorkbook(Combine(None, Run(ts)))) != Pass
  {
    RunCoursesEmpty(ts);
    CombineFresh(ts);
    EmptyTableFails(Combine(None, Run(ts)));
  }

  // ---------------------------------------------------------------------
  //  Where the merge breaks the references
  // ---------------------------------------------------------------------

  /** A university row that a later row with the same name replaces takes
      its id with it while a course that refers to that id survives: the
      merged tables are then inconsistent. */
  lemma OrphanedCourse(unis: seq<UniversityRow>, courses: seq<CourseRow>, p: int, q: int, c: int)
    requires 0 <= p < q < |unis| && unis[p].name == unis[q].name
    requires forall j :: 0 <= j < |unis| && j != p ==> unis[j].id != unis[p].id
    requires 0 <= c < |courses| && courses[c].universityId == unis[p].id
    ensures !TablesConsistent(Tables(Dedup.DropDuplicatesKeepLast(unis, UniversityKey),
                                     Dedup.DropDuplicatesKeepLast(courses, CourseKey)))
  {
    var mc := Dedup.DropDuplicatesKeepLast(courses, CourseKey);
    ReplacedIdGone(unis, p, q);
    ReferenceSurvives(courses, c);
    var k :| 0 <= k < |mc| && mc[k].universityId == courses[c].universityId;
    assert !ReferencesExist(Tables(Dedup.DropDuplicatesKeepLast(unis, UniversityKey), mc));
  }

  /** Course deduplication keeps some course of every university id. */
  lemma ReferenceSurvives(courses: seq<CourseRow>, c: int)
    requires 0 <= c < |courses|
    ensures exists k :: 0 <= k < |Dedup.DropDuplicatesKeepLast(courses, CourseKey)| &&
                        Dedup.DropDuplicatesKeepLast(courses, CourseKey)[k].universityId == courses[c].universityId
  {
    var mc := Dedup.DropDuplicatesKeepLast(courses, CourseKey);
    assert Dedup.HasKeyOf(mc, CourseKey, courses[c]);
    var k :| 0 <= k < |mc| && CourseKey(mc[k]) == CourseKey(courses[c]);
    assert mc[k].universityId == courses[c].universityId;
  }

  /** No surviving university row has the id of a replaced one. */
  lemma ReplacedIdGone(unis: seq<UniversityRow>, p: int, q: int)
    requires 0 <= p < q < |unis| && unis[p].name == unis[q].name
    requires forall j :: 0 <= j < |unis| && j != p ==> unis[j].id != unis[p].id
    ensures unis[p].id !in UniversityIds(Dedup.DropDuplicatesKeepLast(unis, UniversityKey))
  {
    var mu := Dedup.DropDuplicatesKeepLast(unis, UniversityKey);
    Dedup.SupersededDropped(unis, UniversityKey, UniversityIdOf, p, q);
    var ids := UniversityIds(mu);
    forall j | 0 <= j < |ids|
      ensures ids[j] != unis[p].id
    {
      assert ids[j] == mu[j].id;
    }
  }

  /** Two institutions of one fresh run that resolve to the same name:
      only the later keeps its university row, and the earlier one's
      courses are left referring to an id no row has. */
  lemma SharedNameBreaksIntegrity(ts: seq<TargetResult>, i: int, j: int)
    requires DistinctTargetIds(ts)
    requires 0 <= i < j < |ts| && UniversityRowOf(ts[i]).name == UniversityRowOf(ts[j]).name
    requires |ts[i].courses| > 0
    ensures !TablesConsistent(Combine(None, Run(ts)))
    ensures VerifyData(ToWorkbook(Combine(None, Run(ts)))) != Pass
  {
    var us := RunUniversities(ts);
    var cs := RunCourses(ts);
    forall t | 0 <= t < |us| && t != i
      ensures us[t].id != us[i].id
    {
      assert us[t].id == ts[t].universityId && us[i].id == ts[i].universityId;
    }
    RunCoursesContain(ts, i, 0);
    var c :| 0 <= c < |cs| && cs[c] == CourseRowOf(ts[i].universityId, ts[i].courses[0]);
    OrphanedCourse(us, cs, i, j, c);
    CombineFresh(ts);
    InconsistentFails(Combine(None, Run(ts)));
  }

  /** The smallest instance: two institutions whose reference pages could
      not be fetched are both named "Not Available", so a run over them
      fails verification, whatever their ids and courses. */
  lemma TwoUnresolvedTargets(a: TargetResult, b: TargetResult)
    requires a.info.None? && b.info.None?
    requires a.universityId != b.universityId
    requires |a.courses| > 0
    ensures VerifyData(ToWorkbook(Combine(None, Run([a, b])))) != Pass
  {
    var ts := [a, b];
    assert ts[0] == a && ts[1] == b;
    SharedNameBreaksIntegrity(ts, 0, 1);
  }

  /** A second run over consistent saved tables: an institution that
      resolves to the name of a saved university replaces that row, and
      the saved courses that refer to the replaced row's id are left
      dangling, although every id involved is distinct. */
  lemma RerunBreaksIntegrity(prior: Tables, ts: seq<TargetResult>, p: int, i: int, c: int)
    requires TablesConsistent(prior)
    requires 0 <= p < |prior.universities| && 0 <= i < |ts|
    requires prior.universities[p].name == UniversityRowOf(ts[i]).name
    requires forall t :: 0 <= t < |ts| ==> ts[t].universityId != prior.universities[p].id
    requires 0 <= c < |prior.courses| && prior.courses[c].universityId == prior.universities[p].id
    ensures !TablesConsistent(Combine(Some(prior), Run(ts)))
    ensures VerifyData(ToWorkbook(Combine(Some(prior), Run(ts)))) != Pass
  {
    var us := prior.universities + RunUniversities(ts);
    var cs := prior.courses + RunCourses(ts);
    var n := |prior.universities|;
    assert us[n + i] == UniversityRowOf(ts[i]);
    forall j | 0 <= j < |us| && j != p
      ensures us[j].id != us[p].id
    {
      if j < n {
        assert UniversityIds(prior.universities)[j] == us[j].id;
        assert UniversityIds(prior.universities)[p] == us[p].id;
      } else {
        assert us[j] == UniversityRowOf(ts[j - n]);
      }
    }
    OrphanedCourse(us, cs, p, n + i, c);
    InconsistentFails(Combine(Some(prior), Run(ts)));
  }

  /** The smallest re-run: one saved university (Oxford, say) with one
      course, and a run that resolves the same name again under a new id
      and scrapes nothing. The saved course is left dangling. */
  lemma SingleRerun(u: UniversityRow, c: CourseRow, newId: string, info: Wiki.UniversityInfo)
    requires c.universityId == u.id && newId != u.id && info.name == u.name
    ensures TablesConsistent(Tables([u], [c]))
    ensures VerifyData(ToWorkbook(Combine(Some(Tables([u], [c])), Run([TargetResult(newId, Some(info), [])])))) != Pass
  {
    var prior := Tables([u], [c]);
    var ts := [TargetResult(newId, Some(info), [])];
    assert UniversityIds(prior.universities) == [u.id];
    assert TablesConsistent(prior);
    RerunBreaksIntegrity(prior, ts, 0, 0, 0);
  }
}
