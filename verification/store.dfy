/** The merge step of a run: rows built from each institution's resolved
    info and course batch, concatenated after any previously saved rows,
    deduplicated keep-last (universities by name, courses by name and
    university id), and laid out as the two sheets of the workbook. */
module Store {

  import opened Wrappers
  import opened Text
  import opened Verify
  import Wiki
  import Courses
  import Dedup

  datatype UniversityRow = UniversityRow(id: string, name: string, country: string, city: string, website: string)

  datatype CourseRow = CourseRow(
    id: string,
    universityId: string,
    name: string,
    level: string,
    discipline: string,
    duration: string,
    fees: string,
    eligibility: string)

  /** Both tables of the dataset. */
  datatype Tables = Tables(universities: seq<UniversityRow>, courses: seq<CourseRow>)

  /** A course of an adapter's batch with the id generated for it. */
  datatype NewCourse = NewCourse(id: string, course: Courses.Course)

  /** What one institution contributes to a run: the id generated for it,
      the resolved info (`None` when the reference page could not be
      fetched), and its batch of courses with their ids. */
  datatype TargetResult = TargetResult(universityId: string, info: Option<Wiki.UniversityInfo>, courses: seq<NewCourse>)

  // ---------------------------------------------------------------------
  //  Building the rows of a run
  // ---------------------------------------------------------------------

  /** The university row of an institution; an unresolved institution gets
      the sentinel in every field but the id. */
  function UniversityRowOf(t: TargetResult): (u: UniversityRow)
    ensures u.id == t.universityId
    ensures t.info.None? ==> u.name == NotAvailable && u.country == NotAvailable
                             && u.city == NotAvailable && u.website == NotAvailable
    ensures t.info.Some? ==> u.name == t.info.value.name && u.country == t.info.value.country
                             && u.city == t.info.value.city && u.website == t.info.value.website
  {
    match t.info
    case None => UniversityRow(t.universityId, NotAvailable, NotAvailable, NotAvailable, NotAvailable)
    case Some(i) => UniversityRow(t.universityId, i.name, i.country, i.city, i.website)
  }

  function CourseRowOf(universityId: string, n: NewCourse): CourseRow {
    CourseRow(n.id, universityId, n.course.name, n.course.level, n.course.discipline,
              n.course.duration, n.course.fees, n.course.eligibility)
  }

  function RunUniversities(ts: seq<TargetResult>): (us: seq<UniversityRow>)
    ensures |us| == |ts|
    ensures forall i :: 0 <= i < |ts| ==> us[i] == UniversityRowOf(ts[i])
  {
    seq(|ts|, i requires 0 <= i < |ts| => UniversityRowOf(ts[i]))
  }

  /** One institution's batch as course rows, each carrying the
      institution's id. */
  function BatchRows(t: TargetResult): (rows: seq<CourseRow>)
    ensures |rows| == |t.courses|
    ensures forall k :: 0 <= k < |rows| ==> rows[k] == CourseRowOf(t.universityId, t.courses[k])
  {
    seq(|t.courses|, k requires 0 <= k < |t.courses| => CourseRowOf(t.universityId, t.courses[k]))
  }

  function BatchIds(t: TargetResult): (ids: seq<string>)
    ensures |ids| == |t.courses|
    ensures forall k :: 0 <= k < |ids| ==> ids[k] == t.courses[k].id
  {
    seq(|t.courses|, k requires 0 <= k < |t.courses| => t.courses[k].id)
  }

  /** The course ids generated in a run, in the order the courses are added. */
  function RunCourseIds(ts: seq<TargetResult>): seq<string>
    decreases |ts|
  {
    if |ts| == 0 then [] else BatchIds(ts[0]) + RunCourseIds(ts[1..])
  }

  /** The number of courses the targets of a run returned. */
  function CourseCount(ts: seq<TargetResult>): nat
    decreases |ts|
  {
    if |ts| == 0 then 0 else |ts[0].courses| + CourseCount(ts[1..])
  }

  /** The course rows of a run: each institution's batch in turn, one row
      per returned course. */
  function RunCourses(ts: seq<TargetResult>): (cs: seq<CourseRow>)
    ensures |cs| == CourseCount(ts)
    decreases |ts|
  {
    if |ts| == 0 then [] else BatchRows(ts[0]) + RunCourses(ts[1..])
  }

  /** The run's course rows carry the generated course ids, in order. */
  lemma {:induction false} RunCoursesIds(ts: seq<TargetResult>)
    ensures |RunCourses(ts)| == |RunCourseIds(ts)|
    ensures forall k :: 0 <= k < |RunCourses(ts)| ==> RunCourses(ts)[k].id == RunCourseIds(ts)[k]
    decreases |ts|
  {
    if |ts| > 0 {
      RunCoursesIds(ts[1..]);
      var n := |ts[0].courses|;
      forall k | 0 <= k < |RunCourses(ts)|
        ensures RunCourses(ts)[k].id == RunCourseIds(ts)[k]
      {
        if k >= n {
          assert RunCourses(ts)[k] == RunCourses(ts[1..])[k - n];
          assert RunCourseIds(ts)[k] == RunCourseIds(ts[1..])[k - n];
        }
      }
    }
  }

  /** Every course row of a run refers to one of the run's institutions. */
  lemma {:induction false} RunCoursesRefer(ts: seq<TargetResult>, k: int)
    requires 0 <= k < |RunCourses(ts)|
    ensures exists i :: 0 <= i < |ts| && RunCourses(ts)[k].universityId == ts[i].universityId
    decreases |ts|
  {
    var n := |ts[0].courses|;
    if k < n {
      assert RunCourses(ts)[k] == BatchRows(ts[0])[k];
    } else {
      assert RunCourses(ts)[k] == RunCourses(ts[1..])[k - n];
      RunCoursesRefer(ts[1..], k - n);
      var i :| 0 <= i < |ts[1..]| && RunCourses(ts[1..])[k - n].universityId == ts[1..][i].universityId;
      assert ts[1..][i] == ts[i + 1];
    }
  }

  /** Every course of every institution is among the run's course rows. */
  lemma {:induction false} RunCoursesContain(ts: seq<TargetResult>, i: int, k: int)
    requires 0 <= i < |ts| && 0 <= k < |ts[i].courses|
    ensures CourseRowOf(ts[i].universityId, ts[i].courses[k]) in RunCourses(ts)
    decreases |ts|
  {
    if i == 0 {
      assert BatchRows(ts[0])[k] == CourseRowOf(ts[i].universityId, ts[i].courses[k]);
    } else {
      RunCoursesContain(ts[1..], i - 1, k);
      assert ts[1..][i - 1] == ts[i];
    }
  }

  /** Institutions with empty batches contribute no course rows. */
  lemma {:induction false} RunCoursesEmpty(ts: seq<TargetResult>)
    requires forall i :: 0 <= i < |ts| ==> |ts[i].courses| == 0
    ensures RunCourses(ts) == []
    decreases |ts|
  {
    if |ts| > 0 {
      assert forall i :: 0 <= i < |ts[1..]| ==> ts[1..][i] == ts[i + 1];
      RunCoursesEmpty(ts[1..]);
    }
  }

  /** The tables a run produces before any merging. */
  function Run(ts: seq<TargetResult>): Tables {
    Tables(RunUniversities(ts), RunCourses(ts))
  }

  // ---------------------------------------------------------------------
  //  Merging with the saved tables
  // ---------------------------------------------------------------------

  function UniversityKey(u: UniversityRow): string { u.name }
  function CourseKey(c: CourseRow): (string, string) { (c.name, c.universityId) }
  function UniversityIdOf(u: UniversityRow): string { u.id }

  /** Saved rows first, new rows after, then keep-last deduplication of each
      table. No two surviving universities share a name; no two surviving
      courses share name and university id; every name and every (name,
      university id) pair of the input survives, as its last occurrence;
      survivors keep their order. */
  function Merge(prior: Tables, scraped: Tables): (m: Tables)
    ensures forall a, b :: 0 <= a < b < |m.universities| ==> m.universities[a].name != m.universities[b].name
    ensures forall a, b :: 0 <= a < b < |m.courses| ==> CourseKey(m.courses[a]) != CourseKey(m.courses[b])
    ensures exists idx :: Dedup.Survivors(prior.universities + scraped.universities, UniversityKey, idx)
                          && |m.universities| == |idx|
                          && forall k :: 0 <= k < |idx| ==> m.universities[k] == (prior.universities + scraped.universities)[idx[k]]
    ensures exists idx :: Dedup.Survivors(prior.courses + scraped.courses, CourseKey, idx)
                          && |m.courses| == |idx|
                          && forall k :: 0 <= k < |idx| ==> m.courses[k] == (prior.courses + scraped.courses)[idx[k]]
    ensures forall i :: 0 <= i < |prior.universities + scraped.universities| ==>
              Dedup.HasKeyOf(m.universities, UniversityKey, (prior.universities + scraped.universities)[i])
    ensures forall i :: 0 <= i < |prior.courses + scraped.courses| ==>
              Dedup.HasKeyOf(m.courses, CourseKey, (prior.courses + scraped.courses)[i])
  {
    Tables(
      Dedup.DropDuplicatesKeepLast(prior.universities + scraped.universities, UniversityKey),
      Dedup.DropDuplicatesKeepLast(prior.courses + scraped.courses, CourseKey))
  }

  /** The tables a run saves: the new rows merged after the saved ones
      when the workbook could be read (`saved` is `None` when there is no
      workbook yet or reading it failed), and merged on their own
      otherwise. */
  function Combine(saved: Option<Tables>, scraped: Tables): (m: Tables)
    ensures forall a, b :: 0 <= a < b < |m.universities| ==> m.universities[a].name != m.universities[b].name
    ensures forall i :: 0 <= i < |scraped.universities| ==>
              Dedup.HasKeyOf(m.universities, UniversityKey, scraped.universities[i])
    ensures forall i :: 0 <= i < |scraped.courses| ==> Dedup.HasKeyOf(m.courses, CourseKey, scraped.courses[i])
    ensures saved.Some? ==> forall i :: 0 <= i < |saved.value.universities| ==>
              Dedup.HasKeyOf(m.universities, UniversityKey, saved.value.universities[i])
    ensures saved.Some? ==> forall i :: 0 <= i < |saved.value.courses| ==>
              Dedup.HasKeyOf(m.courses, CourseKey, saved.value.courses[i])
  {
    var prior := saved.GetOr(Tables([], []));
    MergeKeepsKeys(prior, scraped);
    Merge(prior, scraped)
  }

  /** Every name and every course key of the saved and of the new tables
      survives the merge. */
  lemma MergeKeepsKeys(prior: Tables, scraped: Tables)
    ensures forall i :: 0 <= i < |prior.universities| ==>
              Dedup.HasKeyOf(Merge(prior, scraped).universities, UniversityKey, prior.universities[i])
    ensures forall i :: 0 <= i < |scraped.universities| ==>
              Dedup.HasKeyOf(Merge(prior, scraped).universities, UniversityKey, scraped.universities[i])
    ensures forall i :: 0 <= i < |prior.courses| ==>
              Dedup.HasKeyOf(Merge(prior, scraped).courses, CourseKey, prior.courses[i])
    ensures forall i :: 0 <= i < |scraped.courses| ==>
              Dedup.HasKeyOf(Merge(prior, scraped).courses, CourseKey, scraped.courses[i])
  {
    assert Merge(prior, scraped).universities
        == Dedup.DropDuplicatesKeepLast(prior.universities + scraped.universities, UniversityKey);
    assert Merge(prior, scraped).courses
        == Dedup.DropDuplicatesKeepLast(prior.courses + scraped.courses, CourseKey);
    ConcatKeepsKeys(prior.universities, scraped.universities, UniversityKey);
    ConcatKeepsKeys(prior.courses, scraped.courses, CourseKey);
  }

  lemma ConcatKeepsKeys<T, K>(xs: seq<T>, ys: seq<T>, key: T -> K)
    ensures forall i :: 0 <= i < |xs| ==> Dedup.HasKeyOf(Dedup.DropDuplicatesKeepLast(xs + ys, key), key, xs[i])
    ensures forall i :: 0 <= i < |ys| ==> Dedup.HasKeyOf(Dedup.DropDuplicatesKeepLast(xs + ys, key), key, ys[i])
  {
    var r := Dedup.DropDuplicatesKeepLast(xs + ys, key);
    forall i | 0 <= i < |xs|
      ensures Dedup.HasKeyOf(r, key, xs[i])
    {
      assert (xs + ys)[i] == xs[i];
    }
    forall i | 0 <= i < |ys|
      ensures Dedup.HasKeyOf(r, key, ys[i])
    {
      assert (xs + ys)[|xs| + i] == ys[i];
    }
  }

  // ---------------------------------------------------------------------
  //  The workbook layout
  // ---------------------------------------------------------------------

  function UniversityCells(u: UniversityRow): seq<string> {
    [u.id, u.name, u.country, u.city, u.website]
  }

  function CourseCells(c: CourseRow): seq<string> {
    [c.id, c.universityId, c.name, c.level, c.discipline, c.duration, c.fees, c.eligibility]
  }

  /** The header a table is written with. A table built from no records
      at all has no columns, so its sheet is written without a header. */
  function Header(columns: seq<string>, rows: nat): (h: seq<string>)
    ensures rows == 0 ==> h == []
    ensures rows > 0 ==> h == columns
  {
    if rows == 0 then [] else columns
  }

  /** The two sheets written at the end of a run. */
  function ToWorkbook(t: Tables): (wb: Workbook)
    ensures |wb| == 2 && wb[0].name == UniversitiesSheet && wb[1].name == CoursesSheet
    ensures |wb[0].rows| == |t.universities| && |wb[1].rows| == |t.courses|
    ensures |t.universities| > 0 ==> wb[0].columns == UniversityColumns
    ensures |t.courses| > 0 ==> wb[1].columns == CourseColumns
  {
    [Sheet(UniversitiesSheet, Header(UniversityColumns, |t.universities|),
           seq(|t.universities|, i requires 0 <= i < |t.universities| => UniversityCells(t.universities[i]))),
     Sheet(CoursesSheet, Header(CourseColumns, |t.courses|),
           seq(|t.courses|, i requires 0 <= i < |t.courses| => CourseCells(t.courses[i])))]
  }

  /** Reads the two tables back by column name, as a saved workbook is read
      before the merge; `None` when a sheet is missing. A column the sheet
      lacks reads as "Not Available" in every row, the value the merged
      table's missing cells are filled with. */
  function FromWorkbook(wb: Workbook): (r: Option<Tables>)
    ensures r.Some? <==> HasSheet(wb, UniversitiesSheet) && HasSheet(wb, CoursesSheet)
    ensures r.Some? ==> |r.value.universities| == |FindSheet(wb, UniversitiesSheet).value.rows|
    ensures r.Some? ==> |r.value.courses| == |FindSheet(wb, CoursesSheet).value.rows|
    ensures r.Some? && "university_id" !in FindSheet(wb, CoursesSheet).value.columns ==>
              forall i :: 0 <= i < |r.value.courses| ==> r.value.courses[i].universityId == NotAvailable
  {
    match (FindSheet(wb, UniversitiesSheet), FindSheet(wb, CoursesSheet))
    case (Some(us), Some(cs)) =>
      Some(Tables(
        seq(|us.rows|, i requires 0 <= i < |us.rows| => ReadUniversity(us, i)),
        seq(|cs.rows|, i requires 0 <= i < |cs.rows| => ReadCourse(cs, i))))
    case _ => None
  }

  function Field(s: Sheet, r: nat, c: string): string
    requires r < |s.rows|
  {
    match ColumnIndex(s.columns, c)
    case None => NotAvailable
    case Some(j) => Cell(s.rows[r], j)
  }

  function ReadUniversity(s: Sheet, r: nat): UniversityRow
    requires r < |s.rows|
  {
    UniversityRow(Field(s, r, "university_id"), Field(s, r, "university_name"), Field(s, r, "country"),
                  Field(s, r, "city"), Field(s, r, "website"))
  }

  function ReadCourse(s: Sheet, r: nat): CourseRow
    requires r < |s.rows|
  {
    CourseRow(Field(s, r, "course_id"), Field(s, r, "university_id"), Field(s, r, "course_name"),
              Field(s, r, "level"), Field(s, r, "discipline"), Field(s, r, "duration"),
              Field(s, r, "fees"), Field(s, r, "eligibility"))
  }

  /** Writing the tables and reading them back gives the same rows. */
  lemma WorkbookRoundTrip(t: Tables)
    ensures FromWorkbook(ToWorkbook(t)) == Some(t)
  {
    var wb := ToWorkbook(t);
    assert FindSheet(wb, UniversitiesSheet) == Some(wb[0]) by {
      assert wb[0].name == UniversitiesSheet;
    }
    assert FindSheet(wb, CoursesSheet) == Some(wb[1]) by {
      assert wb[0].name != CoursesSheet && wb[1].name == CoursesSheet;
    }
    UniversitiesBack(t);
    CoursesBack(t);
  }

  lemma UniversitiesBack(t: Tables)
    ensures var us := ToWorkbook(t)[0];
            seq(|us.rows|, i requires 0 <= i < |us.rows| => ReadUniversity(us, i)) == t.universities
  {
    var us := ToWorkbook(t)[0];
    forall i | 0 <= i < |us.rows|
      ensures ReadUniversity(us, i) == t.universities[i]
    {
      ReadUniversityBack(t, i);
    }
  }

  lemma CoursesBack(t: Tables)
    ensures var cs := ToWorkbook(t)[1];
            seq(|cs.rows|, i requires 0 <= i < |cs.rows| => ReadCourse(cs, i)) == t.courses
  {
    var cs := ToWorkbook(t)[1];
    forall i | 0 <= i < |cs.rows|
      ensures ReadCourse(cs, i) == t.courses[i]
    {
      ReadCourseBack(t, i);
    }
  }

  lemma ReadUniversityBack(t: Tables, i: int)
    requires 0 <= i < |t.universities|
    ensures ReadUniversity(ToWorkbook(t)[0], i) == t.universities[i]
  {
    UniversityKeysBack(t, i);
    UniversityPlaceBack(t, i);
  }

  lemma UniversityKeysBack(t: Tables, i: int)
    requires 0 <= i < |t.universities|
    ensures Field(ToWorkbook(t)[0], i, "university_id") == t.universities[i].id
    ensures Field(ToWorkbook(t)[0], i, "university_name") == t.universities[i].name
  {
    UniversityFieldBack(t, i, 0);
    UniversityFieldBack(t, i, 1);
  }

  lemma UniversityPlaceBack(t: Tables, i: int)
    requires 0 <= i < |t.universities|
    ensures Field(ToWorkbook(t)[0], i, "country") == t.universities[i].country
    ensures Field(ToWorkbook(t)[0], i, "city") == t.universities[i].city
    ensures Field(ToWorkbook(t)[0], i, "website") == t.universities[i].website
  {
    UniversityFieldBack(t, i, 2);
    UniversityFieldBack(t, i, 3);
    UniversityFieldBack(t, i, 4);
  }

  lemma UniversityFieldBack(t: Tables, i: int, j: int)
    requires 0 <= i < |t.universities| && 0 <= j < |UniversityColumns|
    ensures Field(ToWorkbook(t)[0], i, UniversityColumns[j]) == UniversityCells(t.universities[i])[j]
  {
    FirstColumnIndex(UniversityColumns, j);
  }

  lemma ReadCourseBack(t: Tables, i: int)
    requires 0 <= i < |t.courses|
    ensures ReadCourse(ToWorkbook(t)[1], i) == t.courses[i]
  {
    CourseKeysBack(t, i);
    CourseTitleBack(t, i);
    CourseDetailsBack(t, i);
  }

  lemma CourseKeysBack(t: Tables, i: int)
    requires 0 <= i < |t.courses|
    ensures Field(ToWorkbook(t)[1], i, "course_id") == t.courses[i].id
    ensures Field(ToWorkbook(t)[1], i, "university_id") == t.courses[i].universityId
  {
    assert CourseColumns[0] == "course_id" && CourseColumns[1] == "university_id";
    CourseFieldBack(t, i, 0);
    CourseFieldBack(t, i, 1);
  }

  lemma CourseTitleBack(t: Tables, i: int)
    requires 0 <= i < |t.courses|
    ensures Field(ToWorkbook(t)[1], i, "course_name") == t.courses[i].name
    ensures Field(ToWorkbook(t)[1], i, "level") == t.courses[i].level
  {
    CourseFieldBack(t, i, 2);
    CourseFieldBack(t, i, 3);
  }

  lemma CourseDetailsBack(t: Tables, i: int)
    requires 0 <= i < |t.courses|
    ensures Field(ToWorkbook(t)[1], i, "discipline") == t.courses[i].discipline
    ensures Field(ToWorkbook(t)[1], i, "duration") == t.courses[i].duration
    ensures Field(ToWorkbook(t)[1], i, "fees") == t.courses[i].fees
    ensures Field(ToWorkbook(t)[1], i, "eligibility") == t.courses[i].eligibility
  {
    CourseFieldBack(t, i, 4);
    CourseFieldBack(t, i, 5);
    CourseFieldBack(t, i, 6);
    CourseFieldBack(t, i, 7);
  }

  lemma CourseFieldBack(t: Tables, i: int, j: int)
    requires 0 <= i < |t.courses| && 0 <= j < |CourseColumns|
    ensures Field(ToWorkbook(t)[1], i, CourseColumns[j]) == CourseCells(t.courses[i])[j]
  {
    FirstColumnIndex(CourseColumns, j);
  }

  /** A header cell that differs from every earlier one is found at its
      own position. */
  lemma FirstColumnIndex(columns: seq<string>, j: int)
    requires 0 <= j < |columns|
    requires forall k :: 0 <= k < j ==> columns[k] != columns[j]
    ensures ColumnIndex(columns, columns[j]) == Some(j)
  {
  }
}
