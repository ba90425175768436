/** The field extractor: recovers Duration, Fees, Level and Eligibility
    from a page's visible text with ordered lists of patterns (first
    pattern that matches wins), and a course title from the page's first
    primary or secondary heading. Regular expressions are opaque
    matchers returning their first capture group. */
module Extract {

  import opened Wrappers
  import opened Text
  import opened Ordered

  /** A fetched page, reduced to what the extractor reads: the text of the
      first `h1` and first `h2` element (if the page has one), and the
      whitespace-joined visible text of `body` (if the page has a body). */
  datatype Page = Page(h1: Option<string>, h2: Option<string>, body: Option<string>)

  /** The pattern lists, in priority order, for each field. Level has a
      single pattern. */
  datatype Patterns = Patterns(
    duration: seq<Matcher<string>>,
    fees: seq<Matcher<string>>,
    level: Matcher<string>,
    eligibility: seq<Matcher<string>>)

  /** The fields found on a page; `None` is a key left out of the dictionary. */
  datatype Details = Details(
    duration: Option<string>,
    fees: Option<string>,
    level: Option<string>,
    eligibility: Option<string>)

  const NoDetails: Details := Details(None, None, None, None)

  /** Longest Eligibility text kept. */
  const EligibilityCap: nat := 150

  /** The text the patterns run on, when there is one: a failed fetch and a
      page without a body both yield nothing. */
  function BodyText(page: Option<Page>): Option<string> {
    match page
    case None => None
    case Some(p) => p.body
  }

  function FinishDuration(capture: string): string { Title(Strip(capture)) }
  function FinishFees(capture: string): string { Strip(capture) }
  function FinishLevel(capture: string): string { Title(Strip(capture)) }
  function FinishEligibility(capture: string): string { Truncate(Strip(capture), EligibilityCap) }

  /** One field from an ordered pattern list: absent when no pattern
      matches, otherwise the first match's capture passed through `finish`. */
  function Field(ms: seq<Matcher<string>>, text: string, finish: string -> string): (r: Option<string>)
    ensures r.None? <==> forall j :: 0 <= j < |ms| ==> ms[j](text).None?
    ensures forall i :: FirstMatchAt(ms, text, i) ==> r == Some(finish(ms[i](text).value))
  {
    match FirstCapture(ms, text)
    case None => None
    case Some(c) => Some(finish(c))
  }

  /** `extract_details_from_page`: for every field, the first pattern in
      list order that matches supplies the value (trimmed, and title-cased
      or capped as the field requires); a field none of whose patterns
      match is absent, and so is every field of an unfetched or bodiless
      page. */
  function ExtractDetails(pats: Patterns, page: Option<Page>): (d: Details)
    ensures BodyText(page).None? ==> d == NoDetails
    ensures BodyText(page).Some? ==>
      (d.duration.None? <==> forall j :: 0 <= j < |pats.duration| ==> pats.duration[j](BodyText(page).value).None?)
    ensures BodyText(page).Some? ==>
      (d.fees.None? <==> forall j :: 0 <= j < |pats.fees| ==> pats.fees[j](BodyText(page).value).None?)
    ensures BodyText(page).Some? ==>
      (d.level.None? <==> pats.level(BodyText(page).value).None?)
    ensures BodyText(page).Some? ==>
      (d.eligibility.None? <==> forall j :: 0 <= j < |pats.eligibility| ==> pats.eligibility[j](BodyText(page).value).None?)
    ensures forall i :: BodyText(page).Some? && FirstMatchAt(pats.duration, BodyText(page).value, i) ==>
      d.duration == Some(Title(Strip(pats.duration[i](BodyText(page).value).value)))
    ensures forall i :: BodyText(page).Some? && FirstMatchAt(pats.fees, BodyText(page).value, i) ==>
      d.fees == Some(Strip(pats.fees[i](BodyText(page).value).value))
    ensures BodyText(page).Some? && pats.level(BodyText(page).value).Some? ==>
      d.level == Some(Title(Strip(pats.level(BodyText(page).value).value)))
    ensures forall i :: BodyText(page).Some? && FirstMatchAt(pats.eligibility, BodyText(page).value, i) ==>
      d.eligibility == Some(Truncate(Strip(pats.eligibility[i](BodyText(page).value).value), EligibilityCap))
    ensures d.eligibility.Some? ==> |d.eligibility.value| <= EligibilityCap
  {
    match BodyText(page)
    case None => NoDetails
    case Some(text) =>
      var level := match pats.level(text)
        case None => None
        case Some(c) => Some(Title(Strip(c)));
      Details(
        Field(pats.duration, text, FinishDuration),
        Field(pats.fees, text, FinishFees),
        level,
        Field(pats.eligibility, text, FinishEligibility))
  }

  /** A heading text the title heuristic accepts: 6 to 119 characters. */
  predicate TitleLength(t: string) { 5 < |t| < 120 }

  /** `extract_course_name`: the first `h1`'s text if it has an acceptable
      length, otherwise the first `h2`'s text if that has one, otherwise
      nothing. Line breaks inside a heading become spaces. */
  function ExtractCourseName(page: Option<Page>): (r: Option<string>)
    ensures r.Some? ==> TitleLength(r.value) && '\n' !in r.value
    ensures r.Some? ==> page.Some? &&
                        ((page.value.h1.Some? && r.value == ReplaceNewlines(page.value.h1.value)) ||
                         (page.value.h2.Some? && r.value == ReplaceNewlines(page.value.h2.value)))
    ensures page.Some? && page.value.h1.Some? && TitleLength(page.value.h1.value) ==>
      r == Some(ReplaceNewlines(page.value.h1.value))
    ensures r.None? <==> (page.None? ||
                          ((page.value.h1.None? || !TitleLength(page.value.h1.value)) &&
                           (page.value.h2.None? || !TitleLength(page.value.h2.value))))
  {
    match page
    case None => None
    case Some(p) =>
      if p.h1.Some? && TitleLength(ReplaceNewlines(p.h1.value)) then Some(ReplaceNewlines(p.h1.value))
      else if p.h2.Some? && TitleLength(ReplaceNewlines(p.h2.value)) then Some(ReplaceNewlines(p.h2.value))
      else None
  }

  /** Only the patterns up to the first one that matches decide a field:
      two pattern lists that agree on that prefix extract the same Duration,
      Fees and Eligibility. */
  lemma LaterPatternsIgnored(pats: Patterns, pats': Patterns, page: Option<Page>, i: nat, k: nat, e: nat)
    requires BodyText(page).Some?
    requires FirstMatchAt(pats.duration, BodyText(page).value, i) && i < |pats'.duration|
    requires pats.duration[..i + 1] == pats'.duration[..i + 1]
    requires FirstMatchAt(pats.fees, BodyText(page).value, k) && k < |pats'.fees|
    requires pats.fees[..k + 1] == pats'.fees[..k + 1]
    requires FirstMatchAt(pats.eligibility, BodyText(page).value, e) && e < |pats'.eligibility|
    requires pats.eligibility[..e + 1] == pats'.eligibility[..e + 1]
    requires pats.level == pats'.level
    ensures ExtractDetails(pats, page) == ExtractDetails(pats', page)
  {
    var text := BodyText(page).value;
    FirstCaptureIgnoresLater(pats.duration, pats'.duration, text, i);
    FirstCaptureIgnoresLater(pats.fees, pats'.fees, text, k);
    FirstCaptureIgnoresLater(pats.eligibility, pats'.eligibility, text, e);
  }

  /** `str.title()` starts a new word after an apostrophe, so a Level
      captured as "bachelor's" is stored as "Bachelor'S". */
  lemma TitleApostropheQuirk()
    ensures Title("bachelor's") == "Bachelor'S"
  {
  }
}
