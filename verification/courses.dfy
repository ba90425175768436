/** Course records: assembling one from a course page, and normalising an
    adapter's batch to exactly five records with labelled placeholders. */
module Courses {

  import opened Wrappers
  import opened Text
  import opened Extract
  import Discipline

  /** The six-field course record every adapter produces. */
  datatype Course = Course(
    name: string,
    level: string,
    discipline: string,
    duration: string,
    fees: string,
    eligibility: string)

  /** The record a page starts from before anything is found on it. */
  function Blank(fallbackName: string): Course {
    Course(fallbackName, NotAvailable, NotAvailable, NotAvailable, NotAvailable, NotAvailable)
  }

  /** `scrape_course_page` on the outcome of fetching the page (`None` when
      the fetch failed). Every field starts as "Not Available" and is
      overwritten only by a value found on the page; the title comes from
      the headings if one qualifies, else it is the fallback name; the
      discipline is classified from the final title, but only when the
      page was fetched. */
  function ScrapeCoursePage(fetched: Option<Page>, fallbackName: string, pats: Patterns): (c: Course)
    ensures fetched.None? ==> c == Blank(fallbackName)
    ensures ExtractCourseName(fetched).None? ==> c.name == fallbackName
    ensures ExtractCourseName(fetched).Some? ==> c.name == ExtractCourseName(fetched).value
    ensures fetched.Some? ==> c.discipline == Discipline.Guess(c.name)
    ensures ExtractDetails(pats, fetched).level.None? ==> c.level == NotAvailable
    ensures ExtractDetails(pats, fetched).level.Some? ==> c.level == ExtractDetails(pats, fetched).level.value
    ensures ExtractDetails(pats, fetched).duration.None? ==> c.duration == NotAvailable
    ensures ExtractDetails(pats, fetched).duration.Some? ==> c.duration == ExtractDetails(pats, fetched).duration.value
    ensures ExtractDetails(pats, fetched).fees.None? ==> c.fees == NotAvailable
    ensures ExtractDetails(pats, fetched).fees.Some? ==> c.fees == ExtractDetails(pats, fetched).fees.value
    ensures ExtractDetails(pats, fetched).eligibility.None? ==> c.eligibility == NotAvailable
    ensures ExtractDetails(pats, fetched).eligibility.Some? ==> c.eligibility == ExtractDetails(pats, fetched).eligibility.value
  {
    match fetched
    case None => Blank(fallbackName)
    case Some(_) =>
      var name := ExtractCourseName(fetched).GetOr(fallbackName);
      var d := ExtractDetails(pats, fetched);
      Course(
        name,
        d.level.GetOr(NotAvailable),
        Discipline.Guess(name),
        d.duration.GetOr(NotAvailable),
        d.fees.GetOr(NotAvailable),
        d.eligibility.GetOr(NotAvailable))
  }

  /** A stored Eligibility is either the sentinel or at most 150 characters. */
  lemma ScrapedEligibilityCapped(fetched: Option<Page>, fallbackName: string, pats: Patterns)
    ensures var c := ScrapeCoursePage(fetched, fallbackName, pats);
            c.eligibility == NotAvailable || |c.eligibility| <= EligibilityCap
  {
  }

  // ---------------------------------------------------------------------
  //  Padding a batch to exactly five records
  // ---------------------------------------------------------------------

  /** Number of records every adapter hands back. */
  const BatchSize: nat := 5

  /** The placeholder appended at 0-based position `k` of a batch. */
  function Placeholder(tag: string, k: nat): (c: Course)
    ensures c.name == tag + " Course " + NatToString(k + 1)
    ensures c.discipline == "General"
    ensures c.level == NotAvailable && c.duration == NotAvailable
    ensures c.fees == NotAvailable && c.eligibility == NotAvailable
  {
    Course(tag + " Course " + NatToString(k + 1), NotAvailable, "General", NotAvailable, NotAvailable, NotAvailable)
  }

  /** `pad_courses`: appends placeholders while fewer than five records are
      present, then keeps the first five. The result always has exactly
      five records; the first min(n, 5) are the input's, unchanged; every
      later one is the placeholder for its position. */
  function Pad(courses: seq<Course>, tag: string): (r: seq<Course>)
    ensures |r| == BatchSize
    ensures forall k :: 0 <= k < BatchSize && k < |courses| ==> r[k] == courses[k]
    ensures forall k :: |courses| <= k < BatchSize ==> r[k] == Placeholder(tag, k)
  {
    if |courses| >= BatchSize then courses[..BatchSize]
    else courses + seq(BatchSize - |courses|, i requires 0 <= i < BatchSize - |courses| => Placeholder(tag, |courses| + i))
  }

  /** Padding a padded batch again, under any label, changes nothing. */
  lemma PadIdempotent(courses: seq<Course>, tag: string, tag': string)
    ensures Pad(Pad(courses, tag), tag') == Pad(courses, tag)
  {
    var once := Pad(courses, tag);
    assert Pad(once, tag') == once[..BatchSize] == once;
  }
}
