/** scrape_one_event: the fields of one event's detail page. The page itself
    is fetched and parsed by requests and BeautifulSoup; here it is the
    value those produce. */
module EventPage {
  import opened Wrappers
  import opened PyText
  import opened Calendar
  import opened TimeParser

  /** The page's first <blockquote>: the texts of its children in order, and
      the href of the first <a> inside it (None when it has no anchor, or an
      anchor without an href). */
  datatype Blockquote = Blockquote(children: seq<string>, anchorHref: Option<string>)

  /** A parsed detail page: its first blockquote, if any, and the text of
      every <td> of every <tr>, row by row in document order. */
  datatype DetailPage = DetailPage(blockquote: Option<Blockquote>, rows: seq<seq<string>>)

  /** The dictionary scrape_one_event returns; None stands for Python's None. */
  datatype EventRecord = EventRecord(
    title: Option<string>,
    moreInfoUrl: Option<string>,
    start: DateTime,
    end: DateTime,
    location: Option<string>)

  /** A row the scan takes a value from for `key`: exactly two cells, the
      first equal to `key` once stripped. */
  predicate IsFieldRow(row: seq<string>, key: string)
  {
    |row| == 2 && Strip(row[0]) == key
  }

  /** The value the row scan ends with for `key`: a later keyed row
      overwrites an earlier one, and None when no row is keyed so. */
  function LastField(rows: seq<seq<string>>, key: string): Option<string>
  {
    if |rows| == 0 then None
    else if IsFieldRow(rows[|rows| - 1], key) then Some(Strip(rows[|rows| - 1][1]))
    else LastField(rows[..|rows| - 1], key)
  }

  /** There is no value exactly when no row is keyed so. */
  lemma {:induction false} LastFieldAbsent(rows: seq<seq<string>>, key: string)
    ensures LastField(rows, key).None? <==> forall j :: 0 <= j < |rows| ==> !IsFieldRow(rows[j], key)
  {
    if |rows| > 0 && !IsFieldRow(rows[|rows| - 1], key) {
      var rows' := rows[..|rows| - 1];
      LastFieldAbsent(rows', key);
      assert forall j :: 0 <= j < |rows'| ==> rows'[j] == rows[j];
    }
  }

  /** The value is the stripped second cell of the last keyed row. */
  lemma {:induction false} LastFieldIsLastRow(rows: seq<seq<string>>, key: string, j: nat)
    requires j < |rows| && IsFieldRow(rows[j], key)
    requires forall k :: j < k < |rows| ==> !IsFieldRow(rows[k], key)
    ensures LastField(rows, key) == Some(Strip(rows[j][1]))
  {
    var n := |rows| - 1;
    if j < n {
      var rows' := rows[..n];
      assert !IsFieldRow(rows[n], key);
      assert LastField(rows, key) == LastField(rows', key);
      assert rows'[j] == rows[j];
      assert forall k :: j < k < n ==> rows'[k] == rows[k];
      LastFieldIsLastRow(rows', key, j);
      assert LastField(rows', key) == Some(Strip(rows'[j][1]));
    } else {
      assert LastField(rows, key) == Some(Strip(rows[n][1]));
    }
  }

  /** The title and more-info link: set only when the blockquote exists and
      has a child; the title is its first child stripped, the link the first
      anchor's href as written (not resolved against any base). */
  function Heading(bq: Option<Blockquote>): (r: Result<(Option<string>, Option<string>), ScrapeError>)
    ensures r.Success? ==> (r.value.0.Some? <==> bq.Some? && |bq.value.children| > 0)
    ensures r.Success? ==> (r.value.1.Some? <==> r.value.0.Some?)
    ensures r.Success? && r.value.0.Some? ==>
      r.value.0.value == Strip(bq.value.children[0]) && r.value.1 == bq.value.anchorHref
    ensures r.Failure? <==> bq.Some? && |bq.value.children| > 0 && bq.value.anchorHref.None?
    ensures r.Failure? ==> r.error == AnchorMissing
  {
    match bq
    case None => Success((None, None))
    case Some(b) =>
      if |b.children| == 0 then Success((None, None))
      else
        match b.anchorHref
        case None => Failure(AnchorMissing)
        case Some(href) => Success((Some(Strip(b.children[0])), Some(href)))
  }

  /** What scrape_one_event returns, or the exception it raises, for a page
      and the listing's date. The "Date" row is read but never used. */
  function OneEvent(page: DetailPage, date: Date): Result<EventRecord, ScrapeError>
  {
    var heading :- Heading(page.blockquote);
    var times :- MakeDateTime(date, LastField(page.rows, "Time:"));
    Success(EventRecord(heading.0, heading.1, times.0, times.1, LastField(page.rows, "Location:")))
  }

  /** The record exists exactly when the heading and the time range do; it
      lies on the listing's date with valid clock values, carries the
      heading, the parsed times and the last location row, and otherwise
      the first failing step's exception is raised. */
  lemma OneEventShape(page: DetailPage, date: Date)
    ensures var r := OneEvent(page, date);
      var times := MakeDateTime(date, LastField(page.rows, "Time:"));
      && (r.Success? <==> Heading(page.blockquote).Success? && times.Success?)
      && (r.Success? ==> r.value.start.date == date && r.value.end.date == date)
      && (r.Success? ==>
            ValidClock(r.value.start.hour, r.value.start.minute) && ValidClock(r.value.end.hour, r.value.end.minute))
      && (r.Success? ==> r.value.location == LastField(page.rows, "Location:"))
      && (r.Success? ==> (r.value.title, r.value.moreInfoUrl) == Heading(page.blockquote).value)
      && (r.Success? ==> (r.value.start, r.value.end) == times.value)
      && (Heading(page.blockquote).Failure? ==> r == Failure(AnchorMissing))
      && (r.Failure? && Heading(page.blockquote).Success? ==> r.error == times.error)
  {
  }

  /** scrape_one_event on an already fetched page: the blockquote, then the
      row loop that overwrites the date, time and location it has seen. */
  method ScrapeOneEvent(page: DetailPage, date: Date) returns (r: Result<EventRecord, ScrapeError>)
    ensures r == OneEvent(page, date)
  {
    var title: Option<string> := None;
    var moreInfoUrl: Option<string> := None;
    var parsedDate: Option<string> := None;
    var time: Option<string> := None;
    var location: Option<string> := None;

    if page.blockquote.Some? && |page.blockquote.value.children| > 0 {
      title := Some(Strip(page.blockquote.value.children[0]));
      if page.blockquote.value.anchorHref.None? {
        return Failure(AnchorMissing);
      }
      moreInfoUrl := page.blockquote.value.anchorHref;
    }

    var rows := page.rows;
    for i := 0 to |rows|
      invariant parsedDate == LastField(rows[..i], "Date")
      invariant time == LastField(rows[..i], "Time:")
      invariant location == LastField(rows[..i], "Location:")
    {
      var row := rows[i];
      var tds := seq(|row|, k requires 0 <= k < |row| => Strip(row[k]));
      assert rows[..i + 1][..i] == rows[..i];
      if |tds| == 2 {
        if tds[0] == "Date" {
          parsedDate := Some(tds[1]);
        } else if tds[0] == "Time:" {
          time := Some(tds[1]);
        } else if tds[0] == "Location:" {
          location := Some(tds[1]);
        }
      }
    }
    assert rows[..|rows|] == rows;

    var times := MakeDateTime(date, time);
    if times.Failure? {
      return Failure(times.error);
    }
    r := Success(EventRecord(title, moreInfoUrl, times.value.0, times.value.1, location));
  }
}
