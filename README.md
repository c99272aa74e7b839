# CarlTour event scraper and alias dialogue, modelled in Dafny

CarlTour collects the events of the Carleton College calendar
(`http://apps.carleton.edu/calendar/`). For every date in a range it reads
the listing page. It takes the detail-page link out of each `events_title`
cell, where the link is hidden in a JavaScript `openWindow('...')` call. It
reads each detail page for its title, more-info link, time range and
location. It turns the time text, such as `9:00 a.m.–11:00 a.m.`, into two
datetimes on the listing's date. A separate command-line dialogue lets an
operator correct a location matched to the wrong building. The dialogue
adds the alias the operator types to that building's document.

The model has one module per concern:

- `Wrappers`: `Option` and `Result`, plus `ScrapeError`, the exceptions that end a scrape run.
- `PyText`: Python's `\s` / `str.strip` whitespace set (by code point) and `int()` of a run of ASCII digits.
- `Calendar`: `datetime.date` (years 1..9999), date comparison, `date + timedelta(days=1)` with its overflow at `date.max`, and the hour/minute range `datetime.datetime` accepts.
- `TimeParser`: `ONE_TIME_RE`, `TIME_RE` as `re.match` applies them, and `make_datetime_obj`.
  - The matcher follows the backtracking order. The hour group is greedy `{1,2}`. `\s*` is greedy. The lazy `.*?` never crosses a newline. The match is anchored at offset 0, not at the end.
  - The matcher is proved to return the match of the declarative reading (`TimeReMatch`) whose second time starts earliest, which is the one the backtracking engine finds, and None exactly when there is no match.
- `EventPage`: `scrape_one_event` on a page that has already been parsed. The page is its first blockquote plus the cell texts of each table row.
- `Listing`: `EVENT_JS_RE` under `re.search` (the leftmost match), `urljoin` against `BASE_EVENTS_URL` for the paths that class can capture, and the `get_all_event_urls` loop.
- `Pipeline`: `scrape_events_page` and `get_events_for_dates`.
  - The listing page is its sequence of cell hrefs.
  - Each detail page is given by a function from URL to parsed page.
  - An exception is a `Failure`, so the first one ends the whole run.
- `BuildingDbUpdater`: the class `BuildingMatchEvaluator`.
  - The buildings collection is a `seq<Building>` field in natural order. The snapshot taken by `__init__` is a `const`.
  - The lines `input()` returns are a sequence. A method reads from it and reports how many lines it consumed.
  - `cl_user_update_aliases` is a method. It updates that field and keeps the snapshot's names invariant.

The code as written, which the model follows:

- There is no 08:00–22:00 default time range. A missing `Time:` row, or a time text `TIME_RE` does not match, raises.
- No failure is isolated per event or per date. Every exception propagates out of `get_events_for_dates`.
- Events without a location are not dropped. Their `location` is `None`.
- The listing page is requested without the date parameter (`get_all_event_urls` calls `make_soup(event_page_url, )`). Every date therefore sees the same listing.
- `more_info_url` is the anchor's href as written, not resolved to an absolute URL.
- `12:xx a.m.` keeps hour 12; only a `p` hour below 12 gains 12.

## Model

| member | source | states |
|---|---|---|
| Wrappers.ScrapeError | CarlTour/carltour/event_scraper.py:41-79 | the exceptions that end a run: TypeError for a missing time text (:41), UnboundLocalError when TIME_RE does not match (:61), ValueError for an out-of-range clock (:58-59), a missing anchor or href (:79), and OverflowError past date.max (:147) |
| PyText.IsSpace | CarlTour/carltour/event_scraper.py:83 | the characters `str.strip()` removes: Python's whitespace set, by code point |
| PyText.Strip | CarlTour/carltour/event_scraper.py:78 | `str.strip()`: drop the leading and the trailing whitespace run (its meaning is fixed by the four Strip lemmas below) |
| PyText.StripEmpty | CarlTour/carltour/event_scraper.py:78 | `str.strip()` gives the empty string exactly when the text is all whitespace |
| PyText.StripEnds | CarlTour/carltour/event_scraper.py:78 | a non-empty stripped text neither starts nor ends with whitespace |
| PyText.StripInfix | CarlTour/carltour/event_scraper.py:78 | the stripped text is the infix that starts after the leading whitespace, with only whitespace before and after it |
| PyText.StripKeepsStripped | CarlTour/carltour/event_scraper.py:78 | text with no whitespace at either end is returned unchanged |
| PyText.DecimalValue | CarlTour/carltour/event_scraper.py:44-45 | `int()` of a digit run: a single digit is its own value, and an n-digit value is below 10^n |
| Calendar.IsLeapYear | CarlTour/carltour/event_scraper.py:147 | the proleptic Gregorian leap-year rule behind `+= one_day_delta`: divisible by 4, and not by 100 unless by 400 |
| Calendar.DaysInMonth | CarlTour/carltour/event_scraper.py:147 | the month lengths `datetime.date` uses: 31/30 by month, February 29 in a leap year and 28 otherwise |
| Calendar.ValidDate | CarlTour/carltour/event_scraper.py:147 | the dates `datetime.date` accepts: years 1..9999, months 1..12, days within the month |
| Calendar.Before | CarlTour/carltour/event_scraper.py:145 | Python's strict date comparison: by year, then month, then day |
| Calendar.NotAfter | CarlTour/carltour/event_scraper.py:145 | `cur_date <= end_date`: equal or before |
| Calendar.ValidClock | CarlTour/carltour/event_scraper.py:58-59 | the hours 0..23 and minutes 0..59 `datetime.datetime` accepts without ValueError |
| Calendar.NextDay | CarlTour/carltour/event_scraper.py:140-147 | `cur_date += one_day_delta`: fails exactly at date.max (OverflowError); otherwise the result is after d |
| Calendar.NextDayIsLeast | CarlTour/carltour/event_scraper.py:140-147 | no date lies strictly between a date and the day after it |
| TimeParser.FitsUnique | CarlTour/carltour/event_scraper.py:14 | ONE_TIME_RE matches at a given offset in at most one way (group lengths fixed) |
| TimeParser.MatchOneTime | CarlTour/carltour/event_scraper.py:14 | ONE_TIME_RE tried at one offset, the greedy `{1,2}` trying two hour digits before one (see MatchOneTimeIsExact) |
| TimeParser.MatchWithDigits | CarlTour/carltour/event_scraper.py:14 | ONE_TIME_RE at one offset with exactly d hour digits: two minute digits after the colon, the greedy `\s*` run, then a marker (see MatchWithDigitsSound, MatchWithDigitsComplete) |
| TimeParser.MatchWithDigitsSound | CarlTour/carltour/event_scraper.py:14 | ONE_TIME_RE with a fixed number of hour digits: what the greedy `\s*` attempt finds is an occurrence at that offset with that many digits |
| TimeParser.MatchWithDigitsComplete | CarlTour/carltour/event_scraper.py:14 | when that attempt fails, no whitespace run of any length gives an occurrence with that many hour digits |
| TimeParser.MatchOneTimeIsExact | CarlTour/carltour/event_scraper.py:14 | ONE_TIME_RE at an offset, two hour digits tried before one: a result is an occurrence at that offset, and None means none exists there |
| TimeParser.SecondTime | CarlTour/carltour/event_scraper.py:15 | the lazy `.*?` followed by ONE_TIME_RE: one more non-newline character at a time until ONE_TIME_RE matches (see SecondTimeIsEarliest) |
| TimeParser.SecondTimeIsEarliest | CarlTour/carltour/event_scraper.py:15 | the lazy `.*?ONE_TIME_RE`: the result is reached without crossing a newline, no occurrence lies between the offset and it, and None means no occurrence is reachable |
| TimeParser.MatchTimeRe | CarlTour/carltour/event_scraper.py:15 | `re.match(TIME_RE, s)`: a result is a match anchored at 0; every match has the same first time and a second time no earlier; None means no match exists |
| TimeParser.To24 | CarlTour/carltour/event_scraper.py:48-49 | the PM step: the hour changes (by +12) exactly when the marker is 'p' and the hour is below 12; a 'p' hour up to 23 lands in 12..23 |
| TimeParser.MakeDateTime | CarlTour/carltour/event_scraper.py:32-61 | no time text raises TypeError, a text TIME_RE does not match raises (unbound name), out-of-range clock values raise ValueError; otherwise both datetimes lie on the given date, with groups 1-3 and 4-6 converted to 24-hour clock values |
| TimeParser.NotAnchoredNoMatch | CarlTour/carltour/event_scraper.py:41 | `re.match` is anchored: text not starting with a digit has no range, however many times it holds later |
| TimeParser.MorningRange | CarlTour/carltour/event_scraper.py:35 | the docstring's `9:00 a.m.–11:00 a.m.` (en dash) gives 09:00 and 11:00 on the date |
| TimeParser.AllDayRange | CarlTour/carltour/event_scraper.py:12 | the comment's `5:00 a.m.-11:00 p.m.` gives 05:00 and 23:00 on the date |
| EventPage.IsFieldRow | CarlTour/carltour/event_scraper.py:87-93 | the row test `len(tds) == 2` and the comparison of the stripped first cell with the key |
| EventPage.LastField | CarlTour/carltour/event_scraper.py:81-93 | the value the row loop ends with for a key: the stripped second cell of the last two-cell row keyed so (see LastFieldAbsent, LastFieldIsLastRow) |
| EventPage.LastFieldAbsent | CarlTour/carltour/event_scraper.py:81-93 | the row loop ends with no value for a key iff no two-cell row has that stripped first cell |
| EventPage.LastFieldIsLastRow | CarlTour/carltour/event_scraper.py:81-93 | a later keyed row overwrites an earlier one: the value is the stripped second cell of the last such row |
| EventPage.Heading | CarlTour/carltour/event_scraper.py:73-79 | title and more-info link are set iff a blockquote with children exists; the title is the first child stripped, and the link is the anchor's href; a missing anchor raises |
| EventPage.OneEvent | CarlTour/carltour/event_scraper.py:63-103 | scrape_one_event on a parsed page: the heading, then the time range of the last `Time:` row, then the record with the last `Location:` row (see OneEventShape) |
| EventPage.OneEventShape | CarlTour/carltour/event_scraper.py:63-103 | the record succeeds iff the heading and the time range do; its datetimes are on the listing date with valid clocks, it carries the heading and the parsed times, its location is the last `Location:` row, and a failure is the first failing step's error |
| EventPage.ScrapeOneEvent | CarlTour/carltour/event_scraper.py:63-103 | the imperative row loop returns exactly OneEvent of the page |
| Listing.CaptureUnique | CarlTour/carltour/event_scraper.py:10 | EVENT_JS_RE matches at a given offset in at most one way (one group length) |
| Listing.CaptureHere | CarlTour/carltour/event_scraper.py:10 | EVENT_JS_RE tried at one offset: the literal `openWindow('`, the greedy run of class characters, then the closing quote (see CaptureHereIsExact) |
| Listing.CaptureHereIsExact | CarlTour/carltour/event_scraper.py:10 | EVENT_JS_RE tried at one offset: a result is a match there, None means no group length matches there |
| Listing.SearchFrom | CarlTour/carltour/event_scraper.py:116 | `re.search`: EVENT_JS_RE tried at each offset in turn from the left (see SearchFromIsLeftmost) |
| Listing.SearchFromIsLeftmost | CarlTour/carltour/event_scraper.py:10 | `re.search(EVENT_JS_RE, ...)` from an offset: a result matches there and nothing matches earlier; None means no offset matches |
| Listing.EventPath | CarlTour/carltour/event_scraper.py:116-119 | the captured group is within the path class, and None iff the pattern matches nowhere |
| Listing.EventPathIsLeftmost | CarlTour/carltour/event_scraper.py:116-119 | the group returned is the text of the leftmost `openWindow('...')` match |
| Listing.SplitQuery | CarlTour/carltour/event_scraper.py:120 | urlsplit's query split: the path is the prefix before the first '?', and reassembling gives the reference back |
| Listing.QueryPart | CarlTour/carltour/event_scraper.py:120 | urlunsplit's `if query:`: a non-empty query is written after '?', an absent or empty one is dropped |
| Listing.ResolvedPath | CarlTour/carltour/event_scraper.py:120 | urljoin's path for a captured path: merged onto `/calendar/`, with an empty path and "." giving `/calendar/` and ".." giving `/` (see JoinAppends, JoinDotSegments) |
| Listing.JoinEventUrl | CarlTour/carltour/event_scraper.py:120 | `urljoin(BASE_EVENTS_URL, relative_url)` for a captured path: the base's origin, the merged and dot-segment-resolved path, and the query (see the Join lemmas) |
| Listing.JoinKeepsOrigin | CarlTour/carltour/event_scraper.py:120 | every joined URL starts with `http://apps.carleton.edu/` |
| Listing.JoinAppends | CarlTour/carltour/event_scraper.py:120 | for a path that is not a dot segment and has no empty query, urljoin appends it to BASE_EVENTS_URL |
| Listing.JoinDotSegments | CarlTour/carltour/event_scraper.py:120 | "." resolves to the calendar directory and ".." to the site root, keeping the query |
| Listing.JoinDropsEmptyQuery | CarlTour/carltour/event_scraper.py:120 | a trailing '?' is lost: the URL equals the one for the path alone |
| Listing.CellUrl | CarlTour/carltour/event_scraper.py:115-121 | the loop body for one cell: the joined URL of the href's captured path, or nothing when EVENT_JS_RE does not match (see EventUrlsOfCell) |
| Listing.EventUrls | CarlTour/carltour/event_scraper.py:113-121 | the URLs get_all_event_urls collects: each matching cell's joined URL, in cell order (see the EventUrls lemmas) |
| Listing.EventUrlsAppend | CarlTour/carltour/event_scraper.py:113-121 | document order: the URLs of two runs of cells are concatenated |
| Listing.EventUrlsOfCell | CarlTour/carltour/event_scraper.py:116-121 | a cell adds its joined URL when the pattern matches and nothing otherwise |
| Listing.EventUrlsLength | CarlTour/carltour/event_scraper.py:113-121 | at most one URL per cell; exactly one each when all match; none when none match |
| Listing.EventUrlsMembers | CarlTour/carltour/event_scraper.py:113-121 | a URL is in the list iff some cell produces it |
| Listing.GetAllEventUrls | CarlTour/carltour/event_scraper.py:105-123 | the loop returns exactly the cells' URLs in order |
| Pipeline.MapAll | CarlTour/carltour/event_scraper.py:131 | a comprehension whose element call may raise: success iff every element succeeds, with one value per element in order; otherwise the error of the first failing element |
| Pipeline.ConcatAll | CarlTour/carltour/event_scraper.py:149-151 | the extend loop: success iff every step succeeds, and then an element is in the result iff it is in some step's list (the order is fixed by ConcatAllAppend and ConcatAllSingle); otherwise the first failing step's error |
| Pipeline.ConcatAllFailurePersists | CarlTour/carltour/event_scraper.py:149-151 | once a prefix of the loop has raised, the whole loop ends with that error |
| Pipeline.ConcatAllAppend | CarlTour/carltour/event_scraper.py:149-151 | the extend loop over two runs of steps joins the two runs' lists in order |
| Pipeline.ConcatAllSingle | CarlTour/carltour/event_scraper.py:149-151 | a single step of the loop yields exactly that step's list or its exception; with ConcatAllAppend this fixes the result as the in-order concatenation |
| Pipeline.ConcatAllUniformAt | CarlTour/carltour/event_scraper.py:149-151 | when every step yields n elements, element i of step k stands at offset k * n + i |
| Pipeline.ScrapeEach | CarlTour/carltour/event_scraper.py:131 | the comprehension `[scrape_one_event(url, date) for url in event_urls]` as a MapAll, with its first exception (see MapAll) |
| Pipeline.ScrapeEventsPage | CarlTour/carltour/event_scraper.py:125-133 | scrape_events_page: the records of the listing's event URLs on the date, or the first exception (see ScrapeEventsPageShape) |
| Pipeline.ScrapeEventsPageShape | CarlTour/carltour/event_scraper.py:125-133 | one event per listing URL, in listing order, each the record of that URL's page, all on the date; success iff every URL's page parses |
| Pipeline.DateRange | CarlTour/carltour/event_scraper.py:140-147 | the dates the while loop collects: start, then each next day while not after end, or OverflowError past date.max (see the DateRange lemmas) |
| Pipeline.DateRangeOverflow | CarlTour/carltour/event_scraper.py:140-147 | the date loop raises (OverflowError) iff the range is non-empty and ends at date.max |
| Pipeline.DateRangeBounds | CarlTour/carltour/event_scraper.py:140-147 | otherwise the dates are empty iff end is before start, begin with start and end with end, and all lie in [start, end] |
| Pipeline.DateRangeAscending | CarlTour/carltour/event_scraper.py:140-147 | consecutive dates are one day apart and the dates are strictly ascending |
| Pipeline.DateRangeComplete | CarlTour/carltour/event_scraper.py:140-147 | every date in [start, end] is collected |
| Pipeline.ScrapeDates | CarlTour/carltour/event_scraper.py:149-151 | the for loop: each date's page extended onto the result in date order, or the first exception (see the ScrapeDates and ConcatAll lemmas) |
| Pipeline.EventsForDates | CarlTour/carltour/event_scraper.py:135-153 | get_events_for_dates: the date range, then the pages of its dates (see EventsForDatesShape, EventsForDatesAt, EventsForDatesSucceeds) |
| Pipeline.ScrapeDatesCount | CarlTour/carltour/event_scraper.py:149-151 | each date contributes as many events as the listing has event URLs |
| Pipeline.ScrapeDatesOrder | CarlTour/carltour/event_scraper.py:149-151 | over ascending dates, every event lies on one of the dates and the events come out in date order |
| Pipeline.EventsForDatesShape | CarlTour/carltour/event_scraper.py:135-153 | a successful run holds only events inside [start, end], in date order, as many as the dates times the listing URLs |
| Pipeline.EventsForDatesAt | CarlTour/carltour/event_scraper.py:135-153 | in a run that succeeds, with N event URLs, the event at offset k * N + i is the record of the i-th URL's page on the k-th date of the range |
| Pipeline.OffsetIsProduct | CarlTour/carltour/event_scraper.py:149-151 | the offset used for positions in the extended list is k * n |
| Pipeline.EventsForDatesSucceeds | CarlTour/carltour/event_scraper.py:135-153 | a run succeeds iff the range does not reach date.max and every listing URL's page parses on every date of the range |
| Pipeline.CollectDates | CarlTour/carltour/event_scraper.py:140-147 | the while loop returns exactly the date range, or the overflow |
| Pipeline.ExtendWithPages | CarlTour/carltour/event_scraper.py:149-153 | the for loop returns exactly the concatenation of the dates' pages, or the first error |
| Pipeline.GetEventsForDates | CarlTour/carltour/event_scraper.py:135-153 | the two loops together return exactly get_events_for_dates's result |
| BuildingDbUpdater.Names | carltour/building_db_updater.py:27 | the formal names list has one entry per document, its name, in order |
| BuildingDbUpdater.FirstNamed | carltour/building_db_updater.py:52 | `find_one({'name': ...})`: None iff no document has the name, otherwise the first document that has it |
| BuildingDbUpdater.AppendAlias | carltour/building_db_updater.py:52-58 | the update appends the alias to the aliases of the first document with the name, changes no other document, and keeps every name |
| BuildingDbUpdater.FirstKnownFrom | carltour/building_db_updater.py:34-40 | the re-prompt loop stops at the first answer that is a formal name; None iff no answer after the first is one |
| BuildingDbUpdater.Dialogue | carltour/building_db_updater.py:31-42 | exactly "y" confirms after one line; otherwise the building is the first formal name typed and the alias the next line, empty meaning no alias; input running out ends the dialogue having read every line |
| BuildingDbUpdater.AfterDialogue | carltour/building_db_updater.py:48-58 | the collection after the dialogue: changed by AppendAlias only when a non-empty alias was given (see AddedAliasIsRecorded) |
| BuildingDbUpdater.AddedAliasIsRecorded | carltour/building_db_updater.py:52-58 | while the collection keeps the snapshot's names, an added alias always lands last on a document of the named building, and no other document changes |
| BuildingDbUpdater.RetypedBuildingExample | carltour/building_db_updater.py:36-42 | a mistyped building is asked again: four lines read and the alias added to the building named second |
| BuildingDbUpdater.BuildingMatchEvaluator.constructor | carltour/building_db_updater.py:11-20 | keeps the dates and the collection, and takes the snapshot of its documents |
| BuildingDbUpdater.BuildingMatchEvaluator.ClUserUpdateAliases | carltour/building_db_updater.py:26-61 | reads the lines Dialogue says, and changes the collection only by AppendAlias when an alias is added, keeping the snapshot's names |

## Left out

- `make_soup`, `requests` and BeautifulSoup are left out. The HTTP request and the HTML parse are outside the model. A detail page is the value they would produce, the listing page is its cells' hrefs, and network or HTTP errors are not modelled.
- A blockquote whose first child is a tag rather than text is left out. The model takes each child's text; Python would call the tag's `strip` attribute.
- A listing cell without an anchor, or an anchor without an href, is left out. In Python this raises a TypeError or KeyError; the model takes every cell's href as given.
- `Listing.JoinEventUrl` covers only the references `EVENT_JS_RE` can capture. These contain only `[A-Za-z0-9=?_.-]`, so they have no scheme, authority, '/', '#', ';' or '%'. General urljoin is not modelled.
- The "Date" row is read into `parsed_date` and never used; the model reads and drops it likewise.
- Fuzzy matching is left out: `fuzzywuzzy.fuzz.partial_ratio` and the alias score it gives. The score is only printed, so the dialogue's effect does not depend on it.
- The `EventScraper` class, `run_evaluator` and the building callback wiring are not part of this model.
- Printing, the prompts' text, MongoDB connection and bootstrap, the Pyramid views and the JavaScript alias adder are left out.
- `BuildingDbUpdater.BuildingMatchEvaluator.ClUserUpdateAliases`: a document without an `aliases` field (KeyError in Python) is not modelled, since every `Building` has an alias list.
- `BuildingDbUpdater.BuildingMatchEvaluator.ClUserUpdateAliases`: writes to the collection by anyone else are not modelled, so `find_one` always finds the building typed. This is the `Valid()` invariant.
- Date and time arithmetic is limited to what the scraper uses. Time zones and seconds do not appear.
