# University and course scraper — a verified model of its decision logic

The scraper builds a two-sheet workbook, Universities and Courses. For
each of five institutions it does two things. It resolves name, country,
city and website from the institution's encyclopedia page. It then
collects a batch of five course records from the institution's own
site. A companion script, `verify_data`, checks the saved workbook:
- both sheets are present;
- the primary keys are unique;
- no row is duplicated;
- the expected columns are present;
- every course refers to an existing university.

This project models the pure logic between fetching and saving, as
immutable datatypes and total functions:

| module | file | models |
|---|---|---|
| `Text` | text.dfy | ASCII `lower`, `strip`, `split`, `title`, slicing, newline replacement, decimal counters |
| `Ordered` | ordered.dfy | "first entry in list order that matches wins", shared by every ordered table and pattern list |
| `Discipline` | discipline.dfy | `guess_discipline`: the keyword → label table |
| `Extract` | extract.dfy | `extract_details_from_page`: ordered pattern lists, the 150-character Eligibility cap. `extract_course_name`: the `h1`/`h2` title |
| `Courses` | courses.dfy | `scrape_course_page` (record assembly). `pad_courses` (exactly five records) |
| `Discover` | discover.dfy | the link walk of `discover_and_scrape` |
| `Adapters` | adapters.dfy | the level keyword precedence of the Jamia Millia Islamia and Jamia Hamdard adapters |
| `Wiki` | wiki.dfy | `fetch_wiki_university_info`: location split, website row, static fallback table |
| `Dedup` | dedup.dfy | `drop_duplicates(subset=…, keep='last')` |
| `Store` | store.dfy | the row building, concatenation and deduplication of `main`, and the sheet layout |
| `Verify` | verify.dfy | `verify_data` as a pure function from a workbook value to an outcome, and its exit status |
| `Integrity` | integrity.dfy | when the saved tables pass `verify_data`, and when they cannot |
| `Repair` | repair.dfy | a merge that keeps references intact (see Findings) |

Regular expressions are opaque matchers `string -> Option<string>` that
return their first capture group. `urljoin` and page fetching are
function parameters. Generated ids are inputs. A fetched page is
reduced to the strings the code reads from it:
- heading texts;
- body text;
- infobox rows;
- listing anchors.

The headline result is `Integrity.FreshRunVerifies`. A run with no saved
workbook writes tables that pass `verify_data`. It holds only under four
hypotheses, each stated explicitly:
- the generated university ids are distinct;
- the generated course ids are distinct;
- the resolved university names are distinct;
- at least one course was scraped.

Without the third hypothesis the property fails:
- `Integrity.SharedNameBreaksIntegrity` shows the general case.
- `Integrity.TwoUnresolvedTargets` shows two institutions whose pages could not be fetched. Both are named "Not Available".

Without the fourth it fails too (`Integrity.NoCourseRunFails`). A table
built from an empty list of records has no columns. The model writes its
sheet without a header, and the key lookup of `verify_data` then fails
on it (`Integrity.EmptyTableFails`). The program behaves the same way:
deduplicating an empty table returns it unchanged, it is written without a
header, and `verify_data` then fails on the missing `university_id` or
`course_id` column.

A re-run over a saved workbook fails when two things hold. It re-resolves
a saved name under a new id, and the saved workbook has a course on that
university. This is shown by `Integrity.RerunBreaksIntegrity` and
`Integrity.SingleRerun`.

Two behaviours of the code are easy to misread. The model keeps both:
- **Title-casing.** A captured level "bachelor's" is stored as "Bachelor'S", because `str.title()` starts a new word after the apostrophe (`Extract.TitleApostropheQuirk`).
- **Discipline on a failed fetch.** When a course page cannot be fetched, Discipline stays "Not Available". The classifier is only consulted for fetched pages.

## Model

| member | source | states |
|---|---|---|
| Discipline.Guess | scraper.py:121-137 | Total. The result is "General" exactly when no keyword of the table occurs in the lower-cased name. Otherwise it is the label of a keyword that occurs, with no earlier keyword occurring. |
| Discipline.DefaultIsNoLabel | scraper.py:124-133 | No table label is "General", so "General" always means that no keyword occurred. |
| Discipline.GuessIsFirstHitLabel | scraper.py:134-136 | When keyword i is the first in table order to occur, the label is keyword i's label, whatever later keywords also occur. |
| Discipline.GuessIgnoresCase | scraper.py:123 | Two names that are equal once lower-cased get the same label. |
| Discipline.ComputerScienceExample | scraper.py:121-137 | "BSc Computer Science" is classified as Computer Science. |
| Courses.Pad | scraper.py:511-522 | Always exactly five records. The first min(n, 5) are the input's records, unchanged. Every later position k holds the placeholder for position k. |
| Courses.Placeholder | scraper.py:514-521 | The placeholder at 0-based position k is named "<label> Course k+1" and has discipline "General". Every other field is "Not Available". |
| Courses.PadIdempotent | scraper.py:511-522 | Padding an already padded batch, under any label, changes nothing. |
| Courses.ScrapeCoursePage | scraper.py:198-231 | A failed fetch yields the all-"Not Available" record with the fallback title. The title is the heading title when one qualifies, else the fallback. Each of Level, Duration, Fees and Eligibility is the extracted value when found, else "Not Available". On a fetched page the discipline is the classifier's label for the final title. |
| Courses.ScrapedEligibilityCapped | scraper.py:223-226 | A stored Eligibility is the sentinel or at most 150 characters long. |
| Extract.Field | scraper.py:64-68 | A field is absent exactly when no pattern matches. When pattern i is the first in list order to match, the value is pattern i's capture, finished. |
| Extract.ExtractDetails | scraper.py:42-105 | An unfetched or bodiless page yields no fields. Otherwise each of Duration, Fees and Eligibility is absent exactly when none of its patterns match. Each comes from the first matching pattern: Duration stripped and title-cased, Fees stripped, Eligibility stripped and cut to 150 characters. Level is present exactly when its single pattern matches, and is then stripped and title-cased. |
| Extract.ExtractCourseName | scraper.py:108-118 | The first `h1` wins when its text (newlines turned into spaces) is 6 to 119 characters long. Otherwise the first `h2` under the same test wins. Otherwise there is no title. Any title has an acceptable length and no newline. |
| Extract.LaterPatternsIgnored | scraper.py:99-103 | Two pattern lists that agree up to and including the first pattern that matches extract the same details. Patterns after the first match never matter. |
| Extract.TitleApostropheQuirk | scraper.py:88-90 | A captured level "bachelor's" is stored as "Bachelor'S". |
| Ordered.FirstIndex | scraper.py:185-189 | The index returned satisfies the test and no earlier index does. None is returned exactly when no entry satisfies it. |
| Ordered.FirstCapture | scraper.py:64-68 | The result is absent exactly when no matcher matches. Otherwise it is the capture of a matcher that matches, with every earlier matcher failing. |
| Ordered.FirstCaptureIsFirstMatch | scraper.py:64-68 | When matcher i is the first to match, its capture is the outcome. |
| Ordered.FirstCaptureIgnoresLater | scraper.py:64-68 | Lists that agree up to the first match give the same capture. |
| Adapters.JmiLevel | scraper.py:398-400 | The precedence is: Master's exactly when a master keyword occurs; else Doctoral exactly when "ph.d" occurs; else Diploma exactly when "diploma" occurs; else Bachelor's. Each case is stated in both directions. |
| Adapters.HamdardLevel | scraper.py:491-492 | The same precedence with "ll.m" added to the master keywords, and no diploma case. Each case is stated in both directions. |
| Adapters.HamdardNeverDiploma | scraper.py:491-492 | Jamia Hamdard never labels a programme a diploma. |
| Adapters.LevelsAgree | scraper.py:398-400 | On text mentioning neither "ll.m" nor "diploma" the two adapters agree. A JMI diploma is a Hamdard master's when "ll.m" occurs, and a Hamdard bachelor's otherwise. |
| Text.Lower | scraper.py:123 | Same length. Each character is lower-cased on its own. |
| Text.Strip | scraper.py:159 | The result is no longer than its input. |
| Text.StripIsTrimmedSlice | scraper.py:159 | The stripped text is a contiguous slice of the input. Only whitespace lies outside the slice, and the slice neither starts nor ends with whitespace. |
| Text.StripUnpadded | scraper.py:159 | Text that neither starts nor ends with whitespace is unchanged by stripping. |
| Text.StripLeadingSpace | scraper.py:168 | A leading whitespace character makes no difference to the stripped result. |
| Text.Split | scraper.py:168 | There is always at least one part. |
| Text.SplitParts | scraper.py:168 | No part contains the separator. There is exactly one part when the separator does not occur. |
| Text.SplitJoin | scraper.py:168 | Joining the parts with the separator gives back the input. |
| Text.SplitFirst | scraper.py:168 | The first part is the text before the first separator. |
| Text.SplitThrough | scraper.py:168 | Appending a separator and separator-free text to a string appends that text as one more part to its split. |
| Text.SplitLast | scraper.py:168 | The last part is the text after the last separator. |
| Text.Truncate | scraper.py:102 | The result is a prefix of length at most n. It is the whole input when that is no longer than n, and exactly n long otherwise. |
| Text.ReplaceNewlines | scraper.py:115 | Same length, no newline left, every other character unchanged. |
| Text.Title | scraper.py:67 | Non-letters are kept. A letter is upper-cased when it starts a run of letters and lower-cased inside one. |
| Text.NatToString | scraper.py:515 | One or more decimal digits, with no leading zero. |
| Text.NatToStringRoundTrip | scraper.py:515 | Reading the digits back gives the number. |
| Text.NatToStringInjective | scraper.py:515 | Different counters render differently, so placeholders at different positions have different names. |
| Wiki.LocationParts | scraper.py:168 | The segments are the comma-split pieces of the trimmed cell, each trimmed. There are pieces, one per segment, each comma-free, that joined with commas give back the trimmed cell, and each segment is its piece trimmed. There is always a first segment, and two or more exactly when the trimmed cell contains a comma. Every segment is comma-free and trimmed. |
| Wiki.CityIsFirstSegment | scraper.py:168-170 | The first segment is the text before the first comma of the trimmed cell, trimmed. |
| Wiki.CountryIsLastSegment | scraper.py:168-171 | The last segment is the text after the last comma of the trimmed cell, trimmed. |
| Wiki.CityCommaCountry | scraper.py:168-171 | A cell "<city>, <country>", with both parts comma-free and unpadded, gives the city as first segment and the country as last. |
| Wiki.Locate | scraper.py:169-171 | City is the first segment. Country is the last segment when there are two or more, and unchanged otherwise. Name and website are kept. |
| Wiki.ApplyRow | scraper.py:163-174 | A location or city row sets City and, when it has a comma, Country. A website row sets Website to the anchor's href, else to the trimmed cell text. Every field a row does not speak about is kept, and the name is always kept. |
| Wiki.ApplyRows | scraper.py:163-174 | When no row has a website header, the website gathered before the rows is kept. |
| Wiki.LastLocationRowDecidesCity | scraper.py:163-171 | After all rows, City is the first segment of the last location row. |
| Wiki.NoLocationRowKeepsPlace | scraper.py:163-171 | Rows without a location header leave City, Country and name unchanged. |
| Wiki.RowsKeepName | scraper.py:157-174 | Infobox rows never change the name. |
| Wiki.ApplyFallback | scraper.py:177-189 | The table is consulted only while Country is "Not Available". The first key in table order that the URL contains sets both Country and City. With no such key nothing changes. |
| Wiki.FetchWikiInfo | scraper.py:144-191 | A failed fetch yields no info. Otherwise the name is the stripped title, or "Not Available" without one. A country the infobox supplies is final. Without an infobox, only the fallback table can set the place. |
| Wiki.FallbackResolvesCountry | scraper.py:184-189 | A fetched page whose URL contains a fallback key always ends with a real country. |
| Discover.SelectLinks | scraper.py:251-262 | At most the record budget of anchors are picked. Picked anchors are usable (non-empty href, text of at least 3 characters) and in anchor order. Their resolved URLs are pairwise distinct, each reached through its first usable anchor. Every usable anchor before the stopping point has its URL picked. |
| Discover.StepWalks | scraper.py:251-262 | One anchor of the walk preserves every invariant of the walk. |
| Discover.PickWalks | scraper.py:259-262 | Picking a usable anchor with an unseen URL preserves every invariant of the walk. |
| Discover.ScrapeAll | scraper.py:264-266 | One record per selected URL, in order, each scraped with its anchor text as fallback title. |
| Discover.ScrapePicked | scraper.py:264-266 | One record per picked anchor, in order: the page fetched from the anchor's resolved URL, scraped with the anchor text as fallback title. |
| Discover.DiscoverAndScrape | scraper.py:234-269 | An unfetchable listing yields no records. Otherwise there is one record per picked anchor, at most the budget, in anchor order, with pairwise distinct resolved URLs. Each URL is reached through its first usable anchor. Every usable anchor before the last picked one, and every usable anchor at all when the budget was not used up, has its URL picked. Each record is the scraped page of its anchor. |
| Dedup.LastPositions | scraper.py:598-599 | Lists, in increasing order, exactly the positions that hold the last row of their key. |
| Dedup.DropDuplicatesKeepLast | scraper.py:598-599 | The survivors are the last row of each key, in original order. No two survivors share a key, and every input key is present. |
| Dedup.EveryKeySurvives | scraper.py:598-599 | Every input row's key is present among the survivors. |
| Dedup.LastWithKeyExists | scraper.py:598-599 | Every row has a last row with its key, at or after it. |
| Dedup.DropKeepsDistinct | scraper.py:598-599 | An attribute that was pairwise distinct in the input stays pairwise distinct. |
| Dedup.DropKeepsRows | scraper.py:598-599 | Every survivor is an input row. |
| Dedup.DropKeepsNonEmpty | scraper.py:598-599 | A non-empty table stays non-empty. |
| Dedup.DistinctKeysUnchanged | scraper.py:598-599 | With no repeated key, deduplication is the identity. |
| Dedup.SupersededDropped | scraper.py:598 | A row replaced by a later one with the same key is gone. No survivor has a value unique to it. |
| Store.UniversityRowOf | scraper.py:552-558 | The row carries the generated id. An unresolved institution gets "Not Available" in every other field. A resolved one gets its info's fields. |
| Store.RunUniversities | scraper.py:546-558 | One university row per institution, in order. |
| Store.BatchRows | scraper.py:563-573 | One course row per course of the batch, each carrying the institution's id and the course's fields. |
| Store.RunCourses | scraper.py:563-573 | The run has one course row for each course any target returned: as many rows as the batches hold together. |
| Store.RunCoursesIds | scraper.py:563-573 | The run's course rows carry the generated course ids, in order. |
| Store.RunCoursesRefer | scraper.py:563-566 | Every course row of a run refers to one of the run's institutions. |
| Store.RunCoursesContain | scraper.py:563-573 | Every course of every institution's batch is among the run's course rows. |
| Store.RunCoursesEmpty | scraper.py:563-573 | When every batch is empty, the run has no course rows. |
| Store.Merge | scraper.py:587-599 | Saved rows come first and new rows after. Survivors are exactly the last occurrences of each university name and of each (course name, university id) pair, in order. No two survivors share a key, and every input key survives. |
| Store.MergeKeepsKeys | scraper.py:587-599 | Every university name and every (course name, university id) pair, whether saved or new, is still present after the merge. |
| Store.Combine | scraper.py:580-599 | Whether or not a saved workbook could be read, the merged table has no repeated university name. Every name and course key of the new rows survives, and when a saved workbook was read, so does every saved name and course key. |
| Store.ToWorkbook | scraper.py:603-605 | Two sheets, "Universities" then "Courses", with one row per table row. A non-empty table is written under its column names. |
| Store.FromWorkbook | scraper.py:584-585 | Reading succeeds exactly when both sheets are present, and gives as many rows as each sheet has. A course sheet without a `university_id` column reads that field as "Not Available" in every row. |
| Store.WorkbookRoundTrip | scraper.py:577-605 | Writing the two tables as sheets and reading them back by column name gives the same rows, for cells that are not one of pandas' NA markers (see "Left out"). This includes an empty table, which is written without a header. |
| Verify.FindSheet | verify.py:7-8 | Finds a sheet exactly when the workbook has one with that name, and returns a sheet of that name. |
| Verify.ColumnIndex | verify.py:14-15 | Finds the first header cell with that name, and finds none exactly when the name is absent. |
| Verify.VerifyData | verify.py:4-37 | Passes exactly when every check holds: both sheets, unique keys, no duplicate rows, expected columns, resolving references. A missing Universities or Courses sheet is the first error. A reference error is reported only when the references really fail to resolve. |
| Verify.ExitStatus | verify.py:35-37 | The status is 0 exactly when the workbook is valid, and 1 exactly when it is not. |
| Verify.UniqueKeyImpliesNoDuplicateRows | verify.py:18-19 | A unique key column already rules out fully duplicated rows. |
| Integrity.KeyChecks | verify.py:14-15 | On the written sheets, each key check holds exactly when its table has rows and its ids are pairwise distinct. An empty table has no key column to look up. |
| Integrity.ReferenceCheck | verify.py:29-31 | On the written sheets, the reference check holds exactly when both tables have rows and every course's university id is the id of a university row. |
| Integrity.ValidIffConsistent | verify.py:4-37 | Written tables pass every check exactly when both have rows, their ids are unique and every reference resolves. |
| Integrity.ConsistentPasses | verify.py:4-33 | Consistent tables with rows in both, written out, pass. |
| Integrity.EmptyTableFails | verify.py:14-15 | A table without rows is written without a header, so verification fails. With no university rows the error is the missing university_id column. With unique university ids but no course rows it is the missing course_id column. |
| Integrity.CourseMakesNonEmpty | verify.py:29-31 | Consistent tables with a course also have a university. |
| Integrity.InconsistentFails | verify.py:14-37 | Inconsistent tables, written out, fail. |
| Integrity.CombineFresh | scraper.py:594-599 | With nothing saved, the merge deduplicates the run's own rows. |
| Integrity.FreshRunConsistent | scraper.py:546-599 | Given distinct generated ids and distinct resolved names, a fresh run keeps every university row and yields consistent tables. |
| Integrity.FreshRunVerifies | scraper.py:546-605 | Under the same hypotheses, and with at least one course scraped, the workbook a fresh run writes passes `verify_data` with exit status 0. |
| Integrity.FreshRunHasCourse | scraper.py:563-599 | When some institution has a course, the fresh run's merged Courses table is not empty. |
| Integrity.NoCourseRunFails | scraper.py:563-605 | A fresh run in which no institution has a course fails verification. |
| Integrity.ReplacedIdGone | scraper.py:598 | No surviving university has the id of a row replaced by a later one with the same name. |
| Integrity.ReferenceSurvives | scraper.py:599 | Course deduplication keeps some course for every referenced university id. |
| Integrity.OrphanedCourse | scraper.py:598-599 | A replaced university row that a course refers to leaves that course dangling, so the merged tables are inconsistent. |
| Integrity.SharedNameBreaksIntegrity | scraper.py:552-599 | Two institutions of one fresh run that resolve to the same name, the first with a course, make verification fail, even with all ids distinct. |
| Integrity.TwoUnresolvedTargets | scraper.py:552-558 | Two unfetchable reference pages, both named "Not Available", make verification fail as soon as the first has a course. |
| Integrity.RerunBreaksIntegrity | scraper.py:587-599 | A re-run that resolves a saved name under a new id, over consistent saved tables with a course on that university, makes verification fail. |
| Integrity.SingleRerun | scraper.py:587-599 | The smallest case: one saved university with one course, re-resolved under a new id. The saved tables are consistent and the merged ones fail verification. |
| Repair.Redirect | scraper.py:598 | An id no row has is kept as it is. An id whose first row's name survives is moved to the surviving row with that name. |
| Repair.RedirectCourses | scraper.py:599 | Every course is kept, with only its university id redirected. |
| Repair.RedirectResolves | scraper.py:598 | An id of an existing university is redirected to the id of a surviving one. |
| Repair.MergeRedirect | scraper.py:598-599 | No two surviving courses share (course name, university id). |
| Repair.RepairedMergeConsistent | scraper.py:587-599 | Given distinct ids and resolving references before the merge, the corrected merge yields consistent tables, whatever the names. |
| Repair.RepairedRerunVerifies | scraper.py:587-605 | A re-run with new ids over consistent saved tables passes verification under the corrected merge, when there is a saved or a scraped course. |
| Repair.RerunHasCourse | scraper.py:587-599 | With a saved or a scraped course, the merged Courses table is not empty. |
| Repair.RepairedFreshRunVerifies | scraper.py:546-605 | A fresh run with distinct ids and at least one course passes verification under the corrected merge, with no hypothesis on names. |
| Repair.RepairAgreesOnDistinctNames | scraper.py:598-599 | With pairwise distinct university names, the corrected merge is the merge as written. |

## Left out

- Fetching pages: `get_soup`, HTTP, TLS toggling, timeouts. A fetch is an `Option` of an already parsed page, supplied by the caller.
- `time.sleep` and printing. They have no effect on the data.
- HTML traversal (`find`, `find_all`, `select`, `get_text`). A page is the strings the code reads from it.
- Regular-expression semantics of the individual patterns. They are opaque matchers, so the duration, fee, level and eligibility regexes themselves are not modelled.
- Unicode behaviour of `lower`, `title` and `strip`. The model works on ASCII.
- `urljoin`. It is an opaque function of (base, href).
- `uuid.uuid4()[:8]`. Ids are inputs, and their distinctness is a stated hypothesis, because eight hex digits are only probably unique.
- Reading and writing Excel files and pandas type inference on read. The saved tables are an `Option` value, `None` when absent or unreadable. The model reads every cell back verbatim. `read_excel` does not: by default it turns the cells "", "N/A", "NA", "null", "None" and a few similar markers into NaN, and `fillna` (scraper.py:600-601) then rewrites those as "Not Available" on a re-run. A saved value that is one of these markers therefore does not survive a re-run unchanged.
- `fillna` (scraper.py:600-601). Every cell in the model is a string, so there is no NaN to fill.
- Oxford's hard-coded listing URL, link selector and base URL (scraper.py:274-283). Its behaviour is `Discover.DiscoverAndScrape` with a budget of five, followed by `Courses.Pad`, and both are modelled.
- Cambridge's own link loop (scraper.py:296-309): the test that the anchor text is longer than five characters, the filter on degree keywords in the href, and the de-duplication by resolved URL. It is a second link-discovery walk with site-specific filters. Its padding is `Courses.Pad`.
- Harvard's walk over the lists of its Wikipedia page. It is a site-specific HTML walk with hard-coded URLs.
- The text scans of the two Jamia adapters, except their level rules (`Adapters.JmiLevel`, `Adapters.HamdardLevel`). They are site-specific HTML walks with hard-coded URLs.
- The hard-coded target list in `main`. The model takes any sequence of institution results.
- Repair.MergeRedirect: its contract states only distinct course keys. Its consistency result is the separate lemma Repair.RepairedMergeConsistent.
- Text.Split: its own contract states only that there is a part. What the parts are is stated by Text.SplitParts, Text.SplitJoin, Text.SplitFirst and Text.SplitLast.
- Headers of empty saved sheets. The model writes every empty table without a header (`Store.ToWorkbook`). pandas keeps the columns of a saved sheet that has a header but no rows, so a re-run over such a sheet with nothing new to add would write the header, which the model does not.
- Text.Strip: its own contract states only the length bound. What stripping means is in Text.StripIsTrimmedSlice.
- Wiki.FetchWikiInfo: when an infobox exists but gives no country, the contract does not restate the fallback outcome. Wiki.ApplyFallback and Wiki.FallbackResolvesCountry state it.

## Findings

| source | as written | input that shows it | evidently intended | confidence | as-written member | corrected member |
|---|---|---|---|---|---|---|
| scraper.py:598-599 | Universities are deduplicated by name, keep-last, and then courses are deduplicated by (name, university id). A dropped university's courses keep their old id. | A saved workbook has university U (id "a") with a course referring to "a". A re-run resolves the same name under new id "b". After the merge only the "b" row remains, and the saved course refers to "a". The same happens in one fresh run when two unfetchable pages are both named "Not Available". | Every saved course still refers to an existing university after the merge, so `verify_data` passes. | not executed | Integrity.SingleRerun | Repair.RepairedRerunVerifies |
