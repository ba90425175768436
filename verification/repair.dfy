/** The merge step with its evident intent restored: when a university row
    is replaced by a later row of the same name, the courses that referred
    to the replaced row are moved to the row that replaces it, before the
    courses are deduplicated. Saved courses of an institution and the
    courses of the same institution scraped again then share one
    university id, and a re-scraped course replaces its saved copy. */
module Repair {

  import opened Wrappers
  import opened Ordered
  import opened Verify
  import opened Store
  import opened Integrity
  import Dedup

  /** The first row of `all` with id `uid`, found at `i`. */
  predicate FirstWithId(all: seq<UniversityRow>, uid: string, i: int) {
    0 <= i < |all| && all[i].id == uid && forall j :: 0 <= j < i ==> all[j].id != uid
  }

  /** Where a course that referred to `uid` belongs once the university
      rows `all` have been reduced to `kept`: the id of the first kept row
      named like the first row of `all` with id `uid`. An id no row has,
      or a name no kept row has, is left as it is. */
  function Redirect(all: seq<UniversityRow>, kept: seq<UniversityRow>, uid: string): (r: string)
    ensures (forall j :: 0 <= j < |all| ==> all[j].id != uid) ==> r == uid
    ensures forall i :: FirstWithId(all, uid, i) && Dedup.HasKeyOf(kept, UniversityKey, all[i]) ==>
              exists k :: 0 <= k < |kept| && kept[k].name == all[i].name && kept[k].id == r
  {
    match FirstIndex(all, (u: UniversityRow) => u.id == uid)
    case None => uid
    case Some(i) =>
      match FirstIndex(kept, (u: UniversityRow) => u.name == all[i].name)
      case None => uid
      case Some(k) => kept[k].id
  }

  function RedirectCourses(all: seq<UniversityRow>, kept: seq<UniversityRow>, cs: seq<CourseRow>): (rs: seq<CourseRow>)
    ensures |rs| == |cs|
    ensures forall k :: 0 <= k < |cs| ==> rs[k] == cs[k].(universityId := Redirect(all, kept, cs[k].universityId))
  {
    seq(|cs|, k requires 0 <= k < |cs| => cs[k].(universityId := Redirect(all, kept, cs[k].universityId)))
  }

  /** The corrected merge. The universities are deduplicated exactly as
      before; each course is moved to the surviving row of its
      university's name, and only then are the courses deduplicated. */
  function MergeRedirect(prior: Tables, scraped: Tables): (m: Tables)
    ensures forall a, b :: 0 <= a < b < |m.courses| ==> CourseKey(m.courses[a]) != CourseKey(m.courses[b])
  {
    var all := prior.universities + scraped.universities;
    var kept := Dedup.DropDuplicatesKeepLast(all, UniversityKey);
    var cs := RedirectCourses(all, kept, prior.courses + scraped.courses);
    Tables(kept, Dedup.DropDuplicatesKeepLast(cs, CourseKey))
  }

  function CombineRedirect(saved: Option<Tables>, scraped: Tables): Tables {
    MergeRedirect(saved.GetOr(Tables([], [])), scraped)
  }

  // ---------------------------------------------------------------------
  //  The corrected merge keeps the references
  // ---------------------------------------------------------------------

  /** A course that referred to an existing university is moved to a
      surviving one. */
  lemma RedirectResolves(all: seq<UniversityRow>, uid: string)
    requires uid in UniversityIds(all)
    ensures Redirect(all, Dedup.DropDuplicatesKeepLast(all, UniversityKey), uid)
            in UniversityIds(Dedup.DropDuplicatesKeepLast(all, UniversityKey))
  {
    var kept := Dedup.DropDuplicatesKeepLast(all, UniversityKey);
    var i := FirstIndex(all, (u: UniversityRow) => u.id == uid).value;
    assert FirstWithId(all, uid, i);
    assert Dedup.HasKeyOf(kept, UniversityKey, all[i]);
    var k :| 0 <= k < |kept| && kept[k].name == all[i].name && kept[k].id == Redirect(all, kept, uid);
    assert UniversityIds(kept)[k] == kept[k].id;
  }

  /** The corrected merge of tables whose ids are all distinct and whose
      courses all refer to existing universities is consistent, whatever
      the university names. */
  lemma RepairedMergeConsistent(prior: Tables, scraped: Tables)
    requires Distinct(UniversityIds(prior.universities + scraped.universities))
    requires Distinct(CourseIds(prior.courses + scraped.courses))
    requires forall k :: 0 <= k < |prior.courses + scraped.courses| ==>
               (prior.courses + scraped.courses)[k].universityId in UniversityIds(prior.universities + scraped.universities)
    ensures TablesConsistent(MergeRedirect(prior, scraped))
  {
    var all := prior.universities + scraped.universities;
    var courses := prior.courses + scraped.courses;
    var kept := Dedup.DropDuplicatesKeepLast(all, UniversityKey);
    assert MergeRedirect(prior, scraped) ==
           Tables(kept, Dedup.DropDuplicatesKeepLast(RedirectCourses(all, kept, courses), CourseKey));
    KeptIdsDistinct(all);
    RedirectedIdsDistinct(all, kept, courses);
    RedirectedReferencesResolve(all, courses);
  }

  lemma RedirectedReferencesResolve(all: seq<UniversityRow>, courses: seq<CourseRow>)
    requires forall k :: 0 <= k < |courses| ==> courses[k].universityId in UniversityIds(all)
    ensures var kept := Dedup.DropDuplicatesKeepLast(all, UniversityKey);
            var mc := Dedup.DropDuplicatesKeepLast(RedirectCourses(all, kept, courses), CourseKey);
            forall k :: 0 <= k < |mc| ==> mc[k].universityId in UniversityIds(kept)
  {
    var kept := Dedup.DropDuplicatesKeepLast(all, UniversityKey);
    var cs := RedirectCourses(all, kept, courses);
    var mc := Dedup.DropDuplicatesKeepLast(cs, CourseKey);
    Dedup.DropKeepsRows(cs, CourseKey);
    forall k | 0 <= k < |mc|
      ensures mc[k].universityId in UniversityIds(kept)
    {
      assert mc[k] in cs;
      var p :| 0 <= p < |cs| && cs[p] == mc[k];
      RedirectedCourseResolves(all, courses, p);
    }
  }

  /** One moved course refers to a surviving university. */
  lemma RedirectedCourseResolves(all: seq<UniversityRow>, courses: seq<CourseRow>, p: int)
    requires 0 <= p < |courses| && courses[p].universityId in UniversityIds(all)
    ensures var kept := Dedup.DropDuplicatesKeepLast(all, UniversityKey);
            RedirectCourses(all, kept, courses)[p].universityId in UniversityIds(kept)
  {
    RedirectResolves(all, courses[p].universityId);
  }

  lemma KeptIdsDistinct(all: seq<UniversityRow>)
    requires Distinct(UniversityIds(all))
    ensures Distinct(UniversityIds(Dedup.DropDuplicatesKeepLast(all, UniversityKey)))
  {
    assert forall a, b :: 0 <= a < b < |all| ==> UniversityIds(all)[a] != UniversityIds(all)[b];
    Dedup.DropKeepsDistinct(all, UniversityKey, UniversityIdOf);
  }

  lemma RedirectedIdsDistinct(all: seq<UniversityRow>, kept: seq<UniversityRow>, courses: seq<CourseRow>)
    requires Distinct(CourseIds(courses))
    ensures Distinct(CourseIds(Dedup.DropDuplicatesKeepLast(RedirectCourses(all, kept, courses), CourseKey)))
  {
    var cs := RedirectCourses(all, kept, courses);
    assert forall a, b :: 0 <= a < b < |cs| ==> cs[a].id == CourseIds(courses)[a] != CourseIds(courses)[b] == cs[b].id;
    Dedup.DropKeepsDistinct(cs, CourseKey, (c: CourseRow) => c.id);
  }

  /** What a re-run over saved tables needs: the saved tables are
      consistent, and every id the run generates is new. */
  predicate FreshIds(prior: Tables, ts: seq<TargetResult>) {
    && TablesConsistent(prior)
    && DistinctTargetIds(ts)
    && (forall i, p :: 0 <= i < |ts| && 0 <= p < |prior.universities| ==>
          ts[i].universityId != prior.universities[p].id)
    && Distinct(CourseIds(prior.courses) + RunCourseIds(ts))
  }

  /** A re-run with the corrected merge passes verification when the saved
      tables are consistent, every generated id is new, and there is a
      course to write: no hypothesis on the names is needed. */
  lemma RepairedRerunVerifies(prior: Tables, ts: seq<TargetResult>)
    requires FreshIds(prior, ts)
    requires |prior.courses| > 0 || SomeCourse(ts)
    ensures VerifyData(ToWorkbook(CombineRedirect(Some(prior), Run(ts)))) == Pass
  {
    RepairedRerunConsistent(prior, ts);
    RerunHasCourse(prior, ts);
    CourseMakesNonEmpty(CombineRedirect(Some(prior), Run(ts)));
    ConsistentPasses(CombineRedirect(Some(prior), Run(ts)));
  }

  lemma RerunHasCourse(prior: Tables, ts: seq<TargetResult>)
    requires |prior.courses| > 0 || SomeCourse(ts)
    ensures |CombineRedirect(Some(prior), Run(ts)).courses| > 0
  {
    var all := prior.universities + RunUniversities(ts);
    var kept := Dedup.DropDuplicatesKeepLast(all, UniversityKey);
    var courses := prior.courses + RunCourses(ts);
    if |prior.courses| == 0 {
      var i :| 0 <= i < |ts| && |ts[i].courses| > 0;
      RunCoursesContain(ts, i, 0);
    }
    assert CombineRedirect(Some(prior), Run(ts)).courses ==
           Dedup.DropDuplicatesKeepLast(RedirectCourses(all, kept, courses), CourseKey);
    Dedup.DropKeepsNonEmpty(RedirectCourses(all, kept, courses), CourseKey);
  }

  lemma RepairedRerunConsistent(prior: Tables, ts: seq<TargetResult>)
    requires FreshIds(prior, ts)
    ensures TablesConsistent(CombineRedirect(Some(prior), Run(ts)))
  {
    assert CombineRedirect(Some(prior), Run(ts)) == MergeRedirect(prior, Run(ts));
    RerunIdsDistinct(prior, ts);
    RerunCourseIdsDistinct(prior, ts);
    RerunReferencesResolve(prior, ts);
    assert Run(ts) == Tables(RunUniversities(ts), RunCourses(ts));
    RepairedMergeConsistent(prior, Run(ts));
  }

  lemma RerunCourseIdsDistinct(prior: Tables, ts: seq<TargetResult>)
    requires Distinct(CourseIds(prior.courses) + RunCourseIds(ts))
    ensures Distinct(CourseIds(prior.courses + RunCourses(ts)))
  {
    RunCoursesIds(ts);
    assert CourseIds(prior.courses + RunCourses(ts)) == CourseIds(prior.courses) + RunCourseIds(ts);
  }

  lemma RerunIdsDistinct(prior: Tables, ts: seq<TargetResult>)
    requires Distinct(UniversityIds(prior.universities))
    requires DistinctTargetIds(ts)
    requires forall i, p :: 0 <= i < |ts| && 0 <= p < |prior.universities| ==>
               ts[i].universityId != prior.universities[p].id
    ensures Distinct(UniversityIds(prior.universities + RunUniversities(ts)))
  {
    var all := prior.universities + RunUniversities(ts);
    var n := |prior.universities|;
    forall a, b | 0 <= a < b < |all|
      ensures UniversityIds(all)[a] != UniversityIds(all)[b]
    {
      if b < n {
        assert UniversityIds(prior.universities)[a] != UniversityIds(prior.universities)[b];
      } else if a < n {
        assert all[b] == UniversityRowOf(ts[b - n]);
      } else {
        assert all[a] == UniversityRowOf(ts[a - n]) && all[b] == UniversityRowOf(ts[b - n]);
      }
    }
  }

  lemma RerunReferencesResolve(prior: Tables, ts: seq<TargetResult>)
    requires TablesConsistent(prior)
    ensures forall k :: 0 <= k < |prior.courses + RunCourses(ts)| ==>
              (prior.courses + RunCourses(ts))[k].universityId in UniversityIds(prior.universities + RunUniversities(ts))
  {
    var all := prior.universities + RunUniversities(ts);
    var courses := prior.courses + RunCourses(ts);
    var n := |prior.courses|;
    forall k | 0 <= k < |courses|
      ensures courses[k].universityId in UniversityIds(all)
    {
      if k < n {
        var j :| 0 <= j < |prior.universities| && UniversityIds(prior.universities)[j] == courses[k].universityId;
        assert UniversityIds(all)[j] == courses[k].universityId;
      } else {
        RunCoursesRefer(ts, k - n);
        var i :| 0 <= i < |ts| && RunCourses(ts)[k - n].universityId == ts[i].universityId;
        assert UniversityIds(all)[|prior.universities| + i] == ts[i].universityId;
      }
    }
  }

  /** A fresh run with the corrected merge passes verification given
      distinct ids alone, so that two institutions sharing a name no longer
      break it. */
  lemma RepairedFreshRunVerifies(ts: seq<TargetResult>)
    requires DistinctTargetIds(ts)
    requires Distinct(RunCourseIds(ts))
    requires SomeCourse(ts)
    ensures VerifyData(ToWorkbook(CombineRedirect(None, Run(ts)))) == Pass
  {
    var empty := Tables([], []);
    assert TablesConsistent(empty);
    assert CourseIds(empty.courses) + RunCourseIds(ts) == RunCourseIds(ts);
    assert FreshIds(empty, ts);
    RepairedRerunVerifies(empty, ts);
  }

  // ---------------------------------------------------------------------
  //  Agreement with the merge as written
  // ---------------------------------------------------------------------

  /** With distinct names among the universities no row is replaced, every
      course keeps its university id, and the corrected merge is the merge
      as written. */
  lemma RepairAgreesOnDistinctNames(prior: Tables, scraped: Tables)
    requires forall a, b :: 0 <= a < b < |prior.universities + scraped.universities| ==>
               (prior.universities + scraped.universities)[a].name != (prior.universities + scraped.universities)[b].name
    ensures MergeRedirect(prior, scraped) == Merge(prior, scraped)
  {
    var all := prior.universities + scraped.universities;
    Dedup.DistinctKeysUnchanged(all, UniversityKey);
    var courses := prior.courses + scraped.courses;
    var cs := RedirectCourses(all, all, courses);
    forall k | 0 <= k < |courses|
      ensures cs[k] == courses[k]
    {
      RedirectIdentity(all, courses[k].universityId);
    }
    assert cs == courses;
  }

  lemma RedirectIdentity(all: seq<UniversityRow>, uid: string)
    requires forall a, b :: 0 <= a < b < |all| ==> all[a].name != all[b].name
    ensures Redirect(all, all, uid) == uid
  {
    match FirstIndex(all, (u: UniversityRow) => u.id == uid)
    case None =>
    case Some(i) =>
      assert FirstIndex(all, (u: UniversityRow) => u.name == all[i].name) == Some(i);
  }
}
