/** The university info resolver: name, country, city and website from an
    encyclopedia page's title and infobox, with a static country/city
    table keyed by a substring of the page URL for pages whose infobox
    gives no country. */
module Wiki {

  import opened Wrappers
  import opened Text
  import opened Ordered

  /** An infobox row that has both a header cell and a data cell: the
      header's text, the data cell's text, and the `href` of the data
      cell's first anchor when that anchor has one. */
  datatype InfoRow = InfoRow(header: string, cell: string, anchorHref: Option<string>)

  /** A fetched encyclopedia page: the text of its `firstHeading` title,
      and the rows of its infobox table, each when present. */
  datatype WikiPage = WikiPage(title: Option<string>, infobox: Option<seq<InfoRow>>)

  datatype UniversityInfo = UniversityInfo(name: string, country: string, city: string, website: string)

  const Unresolved: UniversityInfo := UniversityInfo(NotAvailable, NotAvailable, NotAvailable, NotAvailable)

  // ---------------------------------------------------------------------
  //  Location rows
  // ---------------------------------------------------------------------

  /** A location segment: no comma, and no whitespace at either end. */
  predicate CleanSegment(p: string) {
    ',' !in p && (|p| > 0 ==> !IsSpace(p[0]) && !IsSpace(p[|p| - 1]))
  }

  /** The segments of a location cell: the trimmed cell split on commas,
      each segment trimmed. The segments are the trimmed comma-free pieces
      that, joined with commas, give back the trimmed cell; there is always
      a first segment; there are two or more exactly when the trimmed cell
      contains a comma; every segment is clean. */
  function LocationParts(cell: string): (parts: seq<string>)
    ensures exists raw :: |raw| == |parts| && Join(raw, ',') == Strip(cell)
                          && forall i :: 0 <= i < |raw| ==> ',' !in raw[i] && parts[i] == Strip(raw[i])
    ensures |parts| >= 1
    ensures |parts| >= 2 <==> ',' in Strip(cell)
    ensures ',' !in Strip(cell) ==> parts == [Strip(Strip(cell))]
    ensures forall i :: 0 <= i < |parts| ==> CleanSegment(parts[i])
  {
    var raw := Split(Strip(cell), ',');
    SplitParts(Strip(cell), ',');
    var parts := Segments(raw);
    forall i | 0 <= i < |parts|
      ensures CleanSegment(parts[i])
    {
      StripKeepsOut(raw[i], ',');
      StripIsTrimmedSlice(raw[i]);
    }
    SplitJoin(Strip(cell), ',');
    parts
  }

  /** Each piece of a split, trimmed. */
  function Segments(raw: seq<string>): (parts: seq<string>)
    ensures |parts| == |raw|
    ensures forall i :: 0 <= i < |raw| ==> parts[i] == Strip(raw[i])
  {
    seq(|raw|, i requires 0 <= i < |raw| => Strip(raw[i]))
  }

  /** The segments are the trimmed pieces of the comma split. */
  lemma PartsOfSplit(cell: string)
    ensures LocationParts(cell) == Segments(Split(Strip(cell), ','))
  {
  }

  /** City comes from the text before the first comma of the trimmed cell,
      trimmed. */
  lemma CityIsFirstSegment(cell: string, k: int)
    requires 0 <= k < |Strip(cell)| && Strip(cell)[k] == ',' && ',' !in Strip(cell)[..k]
    ensures LocationParts(cell)[0] == Strip(Strip(cell)[..k])
  {
    PartsOfSplit(cell);
    SplitFirst(Strip(cell), ',', k);
  }

  /** Country comes from the text after the last comma of the trimmed
      cell, trimmed. */
  lemma CountryIsLastSegment(cell: string, k: int)
    requires 0 <= k < |Strip(cell)| && Strip(cell)[k] == ',' && ',' !in Strip(cell)[k + 1..]
    ensures LocationParts(cell)[|LocationParts(cell)| - 1] == Strip(Strip(cell)[k + 1..])
  {
    var t := Strip(cell);
    var raw := Split(t, ',');
    SplitLast(t, ',', k);
    LastSegment(raw, t[k + 1..]);
    PartsOfSplit(cell);
  }

  lemma LastSegment(raw: seq<string>, last: string)
    requires |raw| >= 1 && raw[|raw| - 1] == last
    ensures Segments(raw)[|Segments(raw)| - 1] == Strip(last)
  {
  }

  /** A cell written "<city>, <country>", as in "Oxford, England", gives
      back the city as City and the country as Country. */
  lemma CityCommaCountry(city: string, country: string)
    requires |city| > 0 && !IsSpace(city[0]) && !IsSpace(city[|city| - 1]) && ',' !in city
    requires |country| > 0 && !IsSpace(country[0]) && !IsSpace(country[|country| - 1]) && ',' !in country
    ensures LocationParts(city + ", " + country)[0] == city
    ensures LocationParts(city + ", " + country)[|LocationParts(city + ", " + country)| - 1] == country
  {
    var cell := city + ", " + country;
    var k := |city|;
    assert Strip(cell) == cell by {
      assert cell[0] == city[0] && cell[|cell| - 1] == country[|country| - 1];
      StripUnpadded(cell);
    }
    assert cell[k] == ',' && cell[..k] == city && cell[k + 1..] == " " + country;
    assert ',' !in cell[k + 1..] by {
      assert cell[k + 1..] == [' '] + country;
    }
    assert LocationParts(cell)[0] == city by {
      CityIsFirstSegment(cell, k);
      StripUnpadded(city);
    }
    assert Strip(" " + country) == country by {
      StripLeadingSpace(" " + country);
      assert (" " + country)[1..] == country;
      StripUnpadded(country);
    }
    CountryIsLastSegment(cell, k);
  }

  predicate IsLocationHeader(header: string) {
    Contains(Lower(Strip(header)), "location") || Contains(Lower(Strip(header)), "city")
  }

  predicate IsWebsiteHeader(header: string) {
    Contains(Lower(Strip(header)), "website")
  }

  /** The place fields after a location row split into `parts`: City is
      the first segment, Country the last when there are at least two. */
  function Locate(info: UniversityInfo, parts: seq<string>): (r: UniversityInfo)
    requires |parts| >= 1
    ensures r.name == info.name && r.website == info.website
    ensures r.city == parts[0]
    ensures |parts| >= 2 ==> r.country == parts[|parts| - 1]
    ensures |parts| == 1 ==> r.country == info.country
  {
    info.(city := parts[0], country := if |parts| >= 2 then parts[|parts| - 1] else info.country)
  }

  /** One infobox row applied to the info gathered so far. A location row
      sets City to the first segment and, when there are at least two
      segments, Country to the last; a website row sets Website to the
      anchor's `href`, or to the trimmed cell text when there is none. The
      name, and every field a row does not speak about, is kept. */
  function ApplyRow(info: UniversityInfo, row: InfoRow): (r: UniversityInfo)
    ensures r.name == info.name
    ensures IsLocationHeader(row.header) ==> r.city == LocationParts(row.cell)[0]
    ensures IsLocationHeader(row.header) && ',' in Strip(row.cell) ==>
              r.country == LocationParts(row.cell)[|LocationParts(row.cell)| - 1]
    ensures IsLocationHeader(row.header) && ',' !in Strip(row.cell) ==> r.country == info.country
    ensures !IsLocationHeader(row.header) ==> r.city == info.city && r.country == info.country
    ensures IsWebsiteHeader(row.header) ==> r.website == row.anchorHref.GetOr(Strip(row.cell))
    ensures !IsWebsiteHeader(row.header) ==> r.website == info.website
  {
    var located := if IsLocationHeader(row.header) then Locate(info, LocationParts(row.cell)) else info;
    if IsWebsiteHeader(row.header) then located.(website := row.anchorHref.GetOr(Strip(row.cell)))
    else located
  }

  /** The infobox rows applied in order. Without a website row the
      website gathered so far is kept. */
  function ApplyRows(info: UniversityInfo, rows: seq<InfoRow>): (r: UniversityInfo)
    ensures (forall j :: 0 <= j < |rows| ==> !IsWebsiteHeader(rows[j].header)) ==> r.website == info.website
    decreases |rows|
  {
    if |rows| == 0 then info else ApplyRows(ApplyRow(info, rows[0]), rows[1..])
  }

  /** The last location row decides the city; with no location row the
      city is the one the rows started from. */
  lemma {:induction false} LastLocationRowDecidesCity(info: UniversityInfo, rows: seq<InfoRow>, i: int)
    requires 0 <= i < |rows| && IsLocationHeader(rows[i].header)
    requires forall j :: i < j < |rows| ==> !IsLocationHeader(rows[j].header)
    ensures ApplyRows(info, rows).city == LocationParts(rows[i].cell)[0]
    decreases |rows|
  {
    var first := ApplyRow(info, rows[0]);
    var rest := rows[1..];
    assert ApplyRows(info, rows) == ApplyRows(first, rest);
    assert forall j :: 0 <= j < |rest| ==> rest[j] == rows[j + 1];
    if i == 0 {
      NoLocationRowKeepsPlace(first, rest);
    } else {
      LastLocationRowDecidesCity(first, rest, i - 1);
    }
  }

  lemma {:induction false} NoLocationRowKeepsPlace(info: UniversityInfo, rows: seq<InfoRow>)
    requires forall j :: 0 <= j < |rows| ==> !IsLocationHeader(rows[j].header)
    ensures ApplyRows(info, rows).city == info.city
    ensures ApplyRows(info, rows).country == info.country
    ensures ApplyRows(info, rows).name == info.name
    decreases |rows|
  {
    if |rows| > 0 {
      NoLocationRowKeepsPlace(ApplyRow(info, rows[0]), rows[1..]);
    }
  }

  lemma {:induction false} RowsKeepName(info: UniversityInfo, rows: seq<InfoRow>)
    ensures ApplyRows(info, rows).name == info.name
    decreases |rows|
  {
    if |rows| > 0 {
      RowsKeepName(ApplyRow(info, rows[0]), rows[1..]);
    }
  }

  // ---------------------------------------------------------------------
  //  Static fallback table
  // ---------------------------------------------------------------------

  /** URL substring -> (country, city), in the order it is consulted. */
  const Fallbacks: seq<(string, (string, string))> := [
    ("Harvard", ("United States", "Cambridge")),
    ("Oxford", ("United Kingdom", "Oxford")),
    ("Cambridge", ("United Kingdom", "Cambridge")),
    ("Islamia", ("India", "New Delhi")),
    ("Hamdard", ("India", "New Delhi"))
  ]

  /** Fallback key `i` is the first one, in table order, contained in `url`. */
  predicate FirstFallbackAt(url: string, i: int) {
    0 <= i < |Fallbacks| && Contains(url, Fallbacks[i].0)
    && forall j :: 0 <= j < i ==> !Contains(url, Fallbacks[j].0)
  }

  /** The fallback table is consulted only while Country is still
      "Not Available"; then the first key contained in the URL sets both
      Country and City, and with no such key nothing changes. */
  function ApplyFallback(url: string, info: UniversityInfo): (r: UniversityInfo)
    ensures info.country != NotAvailable ==> r == info
    ensures forall i :: info.country == NotAvailable && FirstFallbackAt(url, i) ==>
              r == info.(country := Fallbacks[i].1.0, city := Fallbacks[i].1.1)
    ensures (forall i :: 0 <= i < |Fallbacks| ==> !Contains(url, Fallbacks[i].0)) ==> r == info
  {
    if info.country != NotAvailable then info
    else match FirstIndex(Fallbacks, (e: (string, (string, string))) => Contains(url, e.0))
      case None => info
      case Some(i) =>
        assert FirstFallbackAt(url, i);
        info.(country := Fallbacks[i].1.0, city := Fallbacks[i].1.1)
  }

  // ---------------------------------------------------------------------
  //  The resolver
  // ---------------------------------------------------------------------

  /** What the page alone yields, before the fallback table. */
  function InfoboxInfo(page: WikiPage): UniversityInfo {
    var start := Unresolved.(name := if page.title.Some? then Strip(page.title.value) else NotAvailable);
    match page.infobox
    case None => start
    case Some(rows) => ApplyRows(start, rows)
  }

  /** `fetch_wiki_university_info` on the outcome of fetching `url`: no
      info at all when the fetch failed (the empty dictionary), otherwise
      the infobox reading completed by the fallback table. */
  function FetchWikiInfo(url: string, page: Option<WikiPage>): (r: Option<UniversityInfo>)
    ensures page.None? <==> r.None?
    ensures page.Some? && page.value.title.Some? ==> r.value.name == Strip(page.value.title.value)
    ensures page.Some? && page.value.title.None? ==> r.value.name == NotAvailable
    ensures page.Some? && InfoboxInfo(page.value).country != NotAvailable ==> r.value == InfoboxInfo(page.value)
    ensures page.Some? && page.value.infobox.None? ==> r.value == ApplyFallback(url, Unresolved.(name := r.value.name))
  {
    match page
    case None => None
    case Some(p) =>
      match p.infobox
      case None => Some(ApplyFallback(url, InfoboxInfo(p)))
      case Some(rows) =>
        RowsKeepName(InfoboxInfo(p.(infobox := None)), rows);
        Some(ApplyFallback(url, InfoboxInfo(p)))
  }

  /** A fetched page whose URL contains a fallback key always ends with a
      country other than the sentinel: the infobox supplied one, or the
      table did. */
  lemma FallbackResolvesCountry(url: string, page: WikiPage, i: int)
    requires 0 <= i < |Fallbacks| && Contains(url, Fallbacks[i].0)
    ensures FetchWikiInfo(url, Some(page)).value.country != NotAvailable
  {
    var info := InfoboxInfo(page);
    if info.country == NotAvailable {
      var k :| FirstFallbackAt(url, k) by {
        var f := FirstIndex(Fallbacks, (e: (string, (string, string))) => Contains(url, e.0));
        assert f.Some?;
        assert FirstFallbackAt(url, f.value);
      }
    }
  }
}
