/** scrape_events_page and get_events_for_dates: every event of every date in
    a range. The listing page's hrefs and the detail page behind each event
    URL are the values the network would give; an exception anywhere ends
    the whole run, so each stage returns the first error it meets. */
module Pipeline {
  import opened Wrappers
  import opened Calendar
  import opened EventPage
  import opened Listing

  /** [f(x) for x in xs] where f may raise: the values in order, or the
      error of the first element whose f fails. */
  function MapAll<T, U, E>(xs: seq<T>, f: T -> Result<U, E>): (r: Result<seq<U>, E>)
    ensures r.Success? <==> forall i :: 0 <= i < |xs| ==> f(xs[i]).Success?
    ensures r.Success? ==> |r.value| == |xs|
    ensures r.Success? ==> forall i :: 0 <= i < |xs| ==> f(xs[i]) == Success(r.value[i])
    ensures r.Failure? ==>
      exists i :: 0 <= i < |xs| && f(xs[i]) == Failure(r.error)
                  && forall j :: 0 <= j < i ==> f(xs[j]).Success?
  {
    if xs == [] then Success([])
    else
      var first :- f(xs[0]);
      var rest :- MapAll(xs[1..], f);
      assert forall i :: 1 <= i < |xs| ==> xs[1..][i - 1] == xs[i];
      Success([first] + rest)
  }

  /** A loop that extends one list with f(x) for each x of xs in turn,
      where f may raise: the concatenation, or the first error. */
  function ConcatAll<T, U(!new), E>(xs: seq<T>, f: T -> Result<seq<U>, E>): (r: Result<seq<U>, E>)
    ensures r.Success? <==> forall i :: 0 <= i < |xs| ==> f(xs[i]).Success?
    ensures r.Success? ==> forall y :: y in r.value <==> exists i :: 0 <= i < |xs| && y in f(xs[i]).value
    ensures r.Failure? ==>
      exists i :: 0 <= i < |xs| && f(xs[i]) == Failure(r.error)
                  && forall j :: 0 <= j < i ==> f(xs[j]).Success?
  {
    if xs == [] then Success([])
    else
      var xs' := xs[..|xs| - 1];
      assert forall i :: 0 <= i < |xs'| ==> xs'[i] == xs[i];
      var earlier :- ConcatAll(xs', f);
      var last :- f(xs[|xs| - 1]);
      Success(earlier + last)
  }

  /** Once a prefix of the loop has raised, the whole loop raises the same. */
  lemma {:induction false} ConcatAllFailurePersists<T, U(!new), E>(xs: seq<T>, n: nat, f: T -> Result<seq<U>, E>)
    requires n <= |xs|
    requires ConcatAll(xs[..n], f).Failure?
    ensures ConcatAll(xs, f) == ConcatAll(xs[..n], f)
    decreases |xs| - n
  {
    if n < |xs| {
      var xs' := xs[..|xs| - 1];
      assert xs'[..n] == xs[..n];
      ConcatAllFailurePersists(xs', n, f);
    } else {
      assert xs[..n] == xs;
    }
  }

  /** The extend loop over a + b is the loop over a followed by the loop
      over b: its list is the two lists joined, in that order. */
  lemma {:induction false} ConcatAllAppend<T, U(!new), E>(a: seq<T>, b: seq<T>, f: T -> Result<seq<U>, E>)
    requires ConcatAll(a, f).Success? && ConcatAll(b, f).Success?
    ensures ConcatAll(a + b, f) == Success(ConcatAll(a, f).value + ConcatAll(b, f).value)
    decreases |b|
  {
    if b == [] {
      assert a + b == a;
      assert ConcatAll(a, f).value + [] == ConcatAll(a, f).value;
    } else {
      var n := |b| - 1;
      var b' := b[..n];
      assert forall i :: 0 <= i < n ==> b'[i] == b[i];
      assert ConcatAll(b', f).Success?;
      ConcatAllAppend(a, b', f);
      var ab := a + b;
      assert ab[..|ab| - 1] == a + b';
      assert ab[|ab| - 1] == b[n];
      var last := f(b[n]).value;
      assert ConcatAll(ab, f) == Success(ConcatAll(a + b', f).value + last);
      assert ConcatAll(b, f).value == ConcatAll(b', f).value + last;
      assert (ConcatAll(a, f).value + ConcatAll(b', f).value) + last
          == ConcatAll(a, f).value + (ConcatAll(b', f).value + last);
    }
  }

  /** One step of the loop extends the empty list with that step's list. */
  lemma ConcatAllSingle<T, U(!new), E>(x: T, f: T -> Result<seq<U>, E>)
    ensures ConcatAll([x], f) == f(x)
  {
    assert [x][..0] == [];
    if f(x).Success? {
      assert [] + f(x).value == f(x).value;
    }
  }

  /** k * n, written as k additions of n. */
  function Offset(k: nat, n: nat): nat
  {
    if k == 0 then 0 else Offset(k - 1, n) + n
  }

  lemma {:induction false} OffsetIsProduct(k: nat, n: nat)
    ensures Offset(k, n) == k * n
  {
    if k > 0 {
      OffsetIsProduct(k - 1, n);
      assert (k - 1) * n + n == k * n;
    }
  }

  lemma {:induction false} OffsetBound(k: nat, m: nat, n: nat)
    requires k < m
    ensures Offset(k, n) + n <= Offset(m, n)
    decreases m
  {
    if k + 1 < m {
      OffsetBound(k, m - 1, n);
    }
  }

  /** When every step yields n elements, the result has n per step. */
  lemma {:induction false} ConcatAllUniformLength<T, U(!new), E>(xs: seq<T>, f: T -> Result<seq<U>, E>, n: nat)
    requires ConcatAll(xs, f).Success?
    requires forall x :: f(x).Success? ==> |f(x).value| == n
    ensures |ConcatAll(xs, f).value| == Offset(|xs|, n)
  {
    if xs != [] {
      var m := |xs| - 1;
      var xs' := xs[..m];
      assert forall i :: 0 <= i < m ==> xs'[i] == xs[i];
      assert ConcatAll(xs', f).Success?;
      ConcatAllUniformLength(xs', f, n);
      assert ConcatAll(xs, f).value == ConcatAll(xs', f).value + f(xs[m]).value;
    }
  }

  /** ... and element i of step k stands at offset k * n + i. */
  lemma {:induction false} ConcatAllUniformAt<T, U(!new), E>(xs: seq<T>, f: T -> Result<seq<U>, E>, n: nat, k: nat, i: nat)
    requires ConcatAll(xs, f).Success?
    requires forall x :: f(x).Success? ==> |f(x).value| == n
    requires k < |xs| && i < n
    ensures Offset(k, n) + i < |ConcatAll(xs, f).value|
    ensures f(xs[k]).Success? && ConcatAll(xs, f).value[Offset(k, n) + i] == f(xs[k]).value[i]
  {
    var m := |xs| - 1;
    var xs' := xs[..m];
    assert forall j :: 0 <= j < m ==> xs'[j] == xs[j];
    assert ConcatAll(xs', f).Success?;
    ConcatAllUniformLength(xs', f, n);
    var earlier := ConcatAll(xs', f).value;
    var r := ConcatAll(xs, f).value;
    assert r == earlier + f(xs[m]).value;
    if k < m {
      OffsetBound(k, m, n);
      ConcatAllUniformAt(xs', f, n, k, i);
      assert xs'[k] == xs[k];
      assert r[Offset(k, n) + i] == earlier[Offset(k, n) + i];
    } else {
      assert r[Offset(k, n) + i] == f(xs[m]).value[i];
    }
  }

  /** [scrape_one_event(url, date) for url in urls], where fetch gives the
      page behind each URL; the first URL whose page raises ends the list. */
  function ScrapeEach(urls: seq<string>, fetch: string -> DetailPage, date: Date): Result<seq<EventRecord>, ScrapeError>
  {
    MapAll(urls, url => OneEvent(fetch(url), date))
  }

  /** scrape_events_page: the events of the listing's URLs, on `date`. */
  function ScrapeEventsPage(listing: seq<string>, fetch: string -> DetailPage, date: Date): Result<seq<EventRecord>, ScrapeError>
  {
    ScrapeEach(EventUrls(listing), fetch, date)
  }

  /** One event per listing URL, in listing order, each the record of that
      URL's page and all on `date`; the page fails exactly when some URL's
      page does. */
  lemma ScrapeEventsPageShape(listing: seq<string>, fetch: string -> DetailPage, date: Date)
    ensures var r := ScrapeEventsPage(listing, fetch, date);
      && (r.Success? ==> |r.value| == |EventUrls(listing)|)
      && (r.Success? ==> forall i :: 0 <= i < |r.value| ==>
            OneEvent(fetch(EventUrls(listing)[i]), date) == Success(r.value[i]))
      && (r.Success? ==> forall i :: 0 <= i < |r.value| ==>
            r.value[i].start.date == date && r.value[i].end.date == date)
      && (r.Success? <==> forall url :: url in EventUrls(listing) ==> OneEvent(fetch(url), date).Success?)
  {
    forall url | url in EventUrls(listing) {
      OneEventShape(fetch(url), date);
    }
  }

  /** The dates the while loop of get_events_for_dates collects: start, then
      each next day while it is not after end. Stepping past date.max raises
      OverflowError before any page is scraped. */
  function DateRange(start: Date, end: Date): Result<seq<Date>, ScrapeError>
    decreases Ordinal(end) + 1 - Ordinal(start)
  {
    if !NotAfter(start, end) then Success([])
    else
      match NextDay(start)
      case None => Failure(DateOverflow)
      case Some(next) =>
        OrdinalMonotone(start, next);
        OrdinalMonotone(start, end);
        var rest :- DateRange(next, end);
        Success([start] + rest)
  }

  /** The loop raises exactly when it reaches date.max, that is when the
      range is not empty and ends at date.max. */
  lemma {:induction false} DateRangeOverflow(start: Date, end: Date)
    ensures DateRange(start, end).Failure? <==> NotAfter(start, end) && end == MaxDate
    ensures DateRange(start, end).Failure? ==> DateRange(start, end).error == DateOverflow
    decreases Ordinal(end) + 1 - Ordinal(start)
  {
    if NotAfter(start, end) {
      NothingAfterMax(end);
      match NextDay(start)
      case None =>
      case Some(next) =>
        OrdinalMonotone(start, next);
        OrdinalMonotone(start, end);
        DateRangeOverflow(next, end);
    }
  }

  /** Otherwise it collects dates from start to end: empty when end is
      before start, else it begins with start and ends with end, and every
      date lies between them. */
  lemma {:induction false} DateRangeBounds(start: Date, end: Date)
    ensures DateRange(start, end).Success? ==> (DateRange(start, end).value == [] <==> Before(end, start))
    ensures DateRange(start, end).Success? && DateRange(start, end).value != [] ==>
      DateRange(start, end).value[0] == start && DateRange(start, end).value[|DateRange(start, end).value| - 1] == end
    ensures DateRange(start, end).Success? ==> forall i :: 0 <= i < |DateRange(start, end).value| ==>
      NotAfter(start, DateRange(start, end).value[i]) && NotAfter(DateRange(start, end).value[i], end)
    decreases Ordinal(end) + 1 - Ordinal(start)
  {
    if NotAfter(start, end) {
      NothingAfterMax(end);
      match NextDay(start)
      case None =>
      case Some(next) =>
        DateRangeStep(start, end, next);
        OrdinalMonotone(start, end);
        DateRangeBounds(next, end);
        var rest := DateRange(next, end);
        if rest.Success? {
          var v := [start] + rest.value;
          assert DateRange(start, end).value == v;
          if rest.value == [] {
            if Before(start, end) {
              NextDayIsLeast(start, end);
            }
            assert start == end;
          } else {
            assert v[|v| - 1] == rest.value[|rest.value| - 1];
          }
          forall i | 0 <= i < |v|
            ensures NotAfter(start, v[i]) && NotAfter(v[i], end)
          {
            if i > 0 {
              assert v[i] == rest.value[i - 1];
              OrdinalMonotone(next, v[i]);
              OrdinalMonotone(start, v[i]);
            }
          }
        }
    }
  }

  /** The dates are strictly ascending and one day apart. */
  lemma {:induction false} DateRangeAscending(start: Date, end: Date)
    ensures DateRange(start, end).Success? ==> forall i :: 0 <= i < |DateRange(start, end).value| - 1 ==>
      NextDay(DateRange(start, end).value[i]) == Some(DateRange(start, end).value[i + 1])
    ensures DateRange(start, end).Success? ==> forall i, j :: 0 <= i < j < |DateRange(start, end).value| ==>
      Before(DateRange(start, end).value[i], DateRange(start, end).value[j])
    decreases Ordinal(end) + 1 - Ordinal(start)
  {
    if NotAfter(start, end) {
      NothingAfterMax(end);
      match NextDay(start)
      case None =>
      case Some(next) =>
        DateRangeStep(start, end, next);
        OrdinalMonotone(start, end);
        DateRangeAscending(next, end);
        DateRangeBounds(next, end);
        var rest := DateRange(next, end);
        if rest.Success? {
          var v := [start] + rest.value;
          assert DateRange(start, end).value == v;
          forall i | 0 <= i < |v| - 1
            ensures NextDay(v[i]) == Some(v[i + 1])
          {
            if i > 0 {
              assert v[i] == rest.value[i - 1] && v[i + 1] == rest.value[i];
            } else {
              assert v[1] == rest.value[0] == next;
            }
          }
          forall i, j | 0 <= i < j < |v|
            ensures Before(v[i], v[j])
          {
            assert v[j] == rest.value[j - 1];
            if i > 0 {
              assert v[i] == rest.value[i - 1];
            } else {
              OrdinalMonotone(next, v[j]);
              OrdinalMonotone(start, v[j]);
            }
          }
        }
    }
  }

  /** No date of the range is skipped. */
  lemma {:induction false} DateRangeComplete(start: Date, end: Date)
    ensures DateRange(start, end).Success? ==> forall d: Date :: NotAfter(start, d) && NotAfter(d, end) ==>
      d in DateRange(start, end).value
    decreases Ordinal(end) + 1 - Ordinal(start)
  {
    if NotAfter(start, end) {
      NothingAfterMax(end);
      match NextDay(start)
      case None =>
      case Some(next) =>
        OrdinalMonotone(start, next);
        OrdinalMonotone(start, end);
        DateRangeComplete(next, end);
        forall d: Date | Before(start, d) && NotAfter(d, end)
          ensures NotAfter(next, d)
        {
          NextDayIsLeast(start, d);
        }
    }
  }

  /** The for loop of get_events_for_dates: each date's events, in date
      order, the first failing page ending the run. */
  function ScrapeDates(dates: seq<Date>, listing: seq<string>, fetch: string -> DetailPage): Result<seq<EventRecord>, ScrapeError>
  {
    ConcatAll(dates, PageOfDate(listing, fetch))
  }

  /** scrape_events_page(BASE_EVENTS_URL, d) as a function of the date. */
  function PageOfDate(listing: seq<string>, fetch: string -> DetailPage): Date -> Result<seq<EventRecord>, ScrapeError>
  {
    (d: Date) => ScrapeEventsPage(listing, fetch, d)
  }

  /** get_events_for_dates(start, end). */
  function EventsForDates(start: Date, end: Date, listing: seq<string>, fetch: string -> DetailPage): Result<seq<EventRecord>, ScrapeError>
  {
    var dates :- DateRange(start, end);
    ScrapeDates(dates, listing, fetch)
  }

  /** Every date's page holds one event per event URL of the listing, so a
      run that succeeds returns that many events for each date. */
  lemma {:induction false} ScrapeDatesCount(dates: seq<Date>, listing: seq<string>, fetch: string -> DetailPage)
    ensures ScrapeDates(dates, listing, fetch).Success? ==>
      |ScrapeDates(dates, listing, fetch).value| == |dates| * |EventUrls(listing)|
  {
    if dates != [] {
      var dates' := dates[..|dates| - 1];
      ScrapeDatesCount(dates', listing, fetch);
      assert (|dates| - 1) * |EventUrls(listing)| + |EventUrls(listing)| == |dates| * |EventUrls(listing)|;
    }
  }

  /** Date k's events fill offsets k * N .. k * N + N - 1, N being the
      number of event URLs, and the event at offset k * N + i is the record
      of the i-th event URL's page on date k. */
  lemma ScrapeDatesAtOne(dates: seq<Date>, listing: seq<string>, fetch: string -> DetailPage, k: nat, i: nat)
    requires ScrapeDates(dates, listing, fetch).Success?
    requires k < |dates| && i < |EventUrls(listing)|
    ensures Offset(k, |EventUrls(listing)|) + i < |ScrapeDates(dates, listing, fetch).value|
    ensures OneEvent(fetch(EventUrls(listing)[i]), dates[k])
            == Success(ScrapeDates(dates, listing, fetch).value[Offset(k, |EventUrls(listing)|) + i])
  {
    var f := PageOfDate(listing, fetch);
    var n := |EventUrls(listing)|;
    assert ScrapeDates(dates, listing, fetch) == ConcatAll(dates, f);
    PagesHaveOneEventPerUrl(listing, fetch);
    ConcatAllUniformAt(dates, f, n, k, i);
    PageAt(listing, fetch, dates[k], i);
    assert ScrapeDates(dates, listing, fetch).value[Offset(k, n) + i] == f(dates[k]).value[i];
  }

  /** Every page that is scraped holds one event per event URL. */
  lemma PagesHaveOneEventPerUrl(listing: seq<string>, fetch: string -> DetailPage)
    ensures forall d :: PageOfDate(listing, fetch)(d).Success? ==>
      |PageOfDate(listing, fetch)(d).value| == |EventUrls(listing)|
  {
    forall d | PageOfDate(listing, fetch)(d).Success?
      ensures |PageOfDate(listing, fetch)(d).value| == |EventUrls(listing)|
    {
      ScrapeEventsPageShape(listing, fetch, d);
    }
  }

  /** The i-th event of a scraped page is the record of the i-th URL's page. */
  lemma PageAt(listing: seq<string>, fetch: string -> DetailPage, d: Date, i: nat)
    requires PageOfDate(listing, fetch)(d).Success? && i < |EventUrls(listing)|
    ensures i < |PageOfDate(listing, fetch)(d).value|
    ensures OneEvent(fetch(EventUrls(listing)[i]), d) == Success(PageOfDate(listing, fetch)(d).value[i])
  {
    ScrapeEventsPageShape(listing, fetch, d);
  }

  /** The extend loop over ascending dates, when each step's elements all
      carry the step's date: every element carries one of the dates, and the
      elements come out in date order. */
  lemma {:induction false} ConcatAllInDateOrder<U(!new), E>(dates: seq<Date>, f: Date -> Result<seq<U>, E>, key: U -> Date)
    requires forall i, j :: 0 <= i < j < |dates| ==> Before(dates[i], dates[j])
    requires forall d, k :: f(d).Success? && 0 <= k < |f(d).value| ==> key(f(d).value[k]) == d
    ensures ConcatAll(dates, f).Success? ==>
      var ys := ConcatAll(dates, f).value;
      (forall i :: 0 <= i < |ys| ==> key(ys[i]) in dates)
      && forall i, j :: 0 <= i < j < |ys| ==> NotAfter(key(ys[i]), key(ys[j]))
  {
    var r := ConcatAll(dates, f);
    if dates != [] && r.Success? {
      var n := |dates| - 1;
      var dates' := dates[..n];
      assert forall i :: 0 <= i < n ==> dates'[i] == dates[i];
      ConcatAllInDateOrder(dates', f, key);
      assert ConcatAll(dates', f).Success?;
      var earlier := ConcatAll(dates', f).value;
      var last := f(dates[n]).value;
      assert r.value == earlier + last;
      assert forall i :: 0 <= i < |earlier| ==> key(earlier[i]) in dates';
      assert forall k :: 0 <= k < |last| ==> key(last[k]) == dates[n];
      forall i | 0 <= i < |r.value|
        ensures key(r.value[i]) in dates
      {
        if i < |earlier| {
          assert r.value[i] == earlier[i];
          assert key(earlier[i]) in dates';
          var k :| 0 <= k < n && dates'[k] == key(earlier[i]);
          assert dates[k] == key(earlier[i]);
        } else {
          assert r.value[i] == last[i - |earlier|];
        }
      }
      forall i, j | 0 <= i < j < |r.value|
        ensures NotAfter(key(r.value[i]), key(r.value[j]))
      {
        if j < |earlier| {
          assert r.value[i] == earlier[i] && r.value[j] == earlier[j];
        } else if i < |earlier| {
          assert r.value[i] == earlier[i] && r.value[j] == last[j - |earlier|];
          assert key(earlier[i]) in dates';
          var k :| 0 <= k < n && dates'[k] == key(earlier[i]);
          assert Before(dates[k], dates[n]);
        } else {
          assert r.value[i] == last[i - |earlier|] && r.value[j] == last[j - |earlier|];
        }
      }
    }
  }

  function StartDate(e: EventRecord): Date
  {
    e.start.date
  }

  /** Every event of a date's page starts on that date. */
  lemma PagesOnTheirDate(listing: seq<string>, fetch: string -> DetailPage)
    ensures forall d: Date, k :: PageOfDate(listing, fetch)(d).Success? && 0 <= k < |PageOfDate(listing, fetch)(d).value| ==>
      StartDate(PageOfDate(listing, fetch)(d).value[k]) == d
  {
    forall d: Date, k | PageOfDate(listing, fetch)(d).Success? && 0 <= k < |PageOfDate(listing, fetch)(d).value|
      ensures StartDate(PageOfDate(listing, fetch)(d).value[k]) == d
    {
      ScrapeEventsPageShape(listing, fetch, d);
    }
  }

  /** Over ascending dates, each event lies on one of the dates, and the
      events come out in date order. */
  lemma ScrapeDatesOrder(dates: seq<Date>, listing: seq<string>, fetch: string -> DetailPage)
    requires forall i, j :: 0 <= i < j < |dates| ==> Before(dates[i], dates[j])
    ensures ScrapeDates(dates, listing, fetch).Success? ==>
      var events := ScrapeDates(dates, listing, fetch).value;
      (forall i :: 0 <= i < |events| ==> StartDate(events[i]) in dates)
      && forall i, j :: 0 <= i < j < |events| ==> NotAfter(StartDate(events[i]), StartDate(events[j]))
  {
    var f := PageOfDate(listing, fetch);
    PagesOnTheirDate(listing, fetch);
    assert forall d: Date, k :: f(d).Success? && 0 <= k < |f(d).value| ==> StartDate(f(d).value[k]) == d;
    ConcatAllInDateOrder(dates, f, StartDate);
    assert ScrapeDates(dates, listing, fetch) == ConcatAll(dates, f);
  }

  /** A run over a range returns only events on dates of the range, earlier
      dates first, and as many for each date as the listing has event URLs
      (EventsForDatesAt says which event stands where). */
  lemma EventsForDatesShape(start: Date, end: Date, listing: seq<string>, fetch: string -> DetailPage)
    ensures EventsForDates(start, end, listing, fetch).Success? ==>
      var events := EventsForDates(start, end, listing, fetch).value;
      (forall i :: 0 <= i < |events| ==> NotAfter(start, events[i].start.date) && NotAfter(events[i].start.date, end))
      && (forall i, j :: 0 <= i < j < |events| ==> NotAfter(events[i].start.date, events[j].start.date))
      && |events| == |DateRange(start, end).value| * |EventUrls(listing)|
  {
    DateRangeOverflow(start, end);
    DateRangeBounds(start, end);
    DateRangeAscending(start, end);
    if EventsForDates(start, end, listing, fetch).Success? {
      var dates := DateRange(start, end).value;
      var events := ScrapeDates(dates, listing, fetch).value;
      ScrapeDatesOrder(dates, listing, fetch);
      ScrapeDatesCount(dates, listing, fetch);
      forall i | 0 <= i < |events|
        ensures NotAfter(start, events[i].start.date) && NotAfter(events[i].start.date, end)
      {
        assert StartDate(events[i]) in dates;
        var k :| 0 <= k < |dates| && dates[k] == StartDate(events[i]);
      }
    }
  }

  /** In a run that succeeds, the events of the k-th date of the range
      come k-th, each date's in the order of the listing's URLs: with N event
      URLs, the event at offset Offset(k, N) + i, that is k * N + i
      (OffsetIsProduct), is the record of the i-th URL's page on the k-th
      date. */
  lemma EventsForDatesAt(start: Date, end: Date, listing: seq<string>, fetch: string -> DetailPage, k: nat, i: nat)
    requires EventsForDates(start, end, listing, fetch).Success?
    requires DateRange(start, end).Success? && k < |DateRange(start, end).value| && i < |EventUrls(listing)|
    ensures Offset(k, |EventUrls(listing)|) + i < |EventsForDates(start, end, listing, fetch).value|
    ensures OneEvent(fetch(EventUrls(listing)[i]), DateRange(start, end).value[k])
            == Success(EventsForDates(start, end, listing, fetch).value[Offset(k, |EventUrls(listing)|) + i])
  {
    var dates := DateRange(start, end).value;
    assert EventsForDates(start, end, listing, fetch) == ScrapeDates(dates, listing, fetch);
    ScrapeDatesAtOne(dates, listing, fetch, k, i);
  }

  /** A run succeeds exactly when the range does not reach date.max and
      every event page of every date in the range parses. */
  lemma EventsForDatesSucceeds(start: Date, end: Date, listing: seq<string>, fetch: string -> DetailPage)
    ensures EventsForDates(start, end, listing, fetch).Success? <==>
      !(NotAfter(start, end) && end == MaxDate)
      && forall d: Date, url :: NotAfter(start, d) && NotAfter(d, end) && url in EventUrls(listing) ==>
           OneEvent(fetch(url), d).Success?
  {
    DateRangeOverflow(start, end);
    var range := DateRange(start, end);
    if range.Success? {
      var dates := range.value;
      DateRangeBounds(start, end);
      DateRangeComplete(start, end);
      var f := PageOfDate(listing, fetch);
      assert EventsForDates(start, end, listing, fetch) == ConcatAll(dates, f);
      forall d: Date
        ensures f(d).Success? <==> forall url :: url in EventUrls(listing) ==> OneEvent(fetch(url), d).Success?
      {
        PageSucceeds(listing, fetch, d);
      }
      assert forall d: Date :: d in dates <==> NotAfter(start, d) && NotAfter(d, end);
    }
  }

  /** A page of events is scraped exactly when every event URL's page parses. */
  lemma PageSucceeds(listing: seq<string>, fetch: string -> DetailPage, date: Date)
    ensures ScrapeEventsPage(listing, fetch, date).Success? <==>
      forall url :: url in EventUrls(listing) ==> OneEvent(fetch(url), date).Success?
  {
    var urls := EventUrls(listing);
    var g := (url: string) => OneEvent(fetch(url), date);
    assert ScrapeEventsPage(listing, fetch, date) == MapAll(urls, g);
    assert (forall url :: url in urls ==> g(url).Success?) <==> (forall i :: 0 <= i < |urls| ==> g(urls[i]).Success?);
  }

  /** A date list with p put in front, or the error unchanged. */
  function Prefixed(p: seq<Date>, r: Result<seq<Date>, ScrapeError>): Result<seq<Date>, ScrapeError>
  {
    if r.Failure? then r else Success(p + r.value)
  }

  lemma PrefixedTwice(p: seq<Date>, q: seq<Date>, r: Result<seq<Date>, ScrapeError>)
    ensures Prefixed(p, Prefixed(q, r)) == Prefixed(p + q, r)
  {
    if r.Success? {
      assert p + (q + r.value) == (p + q) + r.value;
    }
  }

  /** One step of DateRange: the day itself, then the range from the next. */
  lemma DateRangeStep(cur: Date, end: Date, next: Date)
    requires NotAfter(cur, end) && NextDay(cur) == Some(next)
    ensures DateRange(cur, end) == Prefixed([cur], DateRange(next, end))
    ensures Ordinal(cur) < Ordinal(next)
  {
    OrdinalMonotone(cur, next);
  }

  /** The while loop of get_events_for_dates: append the current date, then
      step one day, until the date passes end. */
  method CollectDates(start: Date, end: Date) returns (r: Result<seq<Date>, ScrapeError>)
    ensures r == DateRange(start, end)
  {
    var allDates: seq<Date> := [];
    var curDate := start;
    assert DateRange(curDate, end).Success? ==> [] + DateRange(curDate, end).value == DateRange(curDate, end).value;
    while NotAfter(curDate, end)
      invariant DateRange(start, end) == Prefixed(allDates, DateRange(curDate, end))
      decreases Ordinal(end) + 1 - Ordinal(curDate)
    {
      var next := NextDay(curDate);
      if next.None? {
        return Failure(DateOverflow);
      }
      DateRangeStep(curDate, end, next.value);
      PrefixedTwice(allDates, [curDate], DateRange(next.value, end));
      allDates := allDates + [curDate];
      curDate := next.value;
    }
    assert allDates + [] == allDates;
    r := Success(allDates);
  }

  /** The for loop of get_events_for_dates: extend the result with each
      date's page in turn. */
  method ExtendWithPages(allDates: seq<Date>, listing: seq<string>, fetch: string -> DetailPage)
    returns (r: Result<seq<EventRecord>, ScrapeError>)
    ensures r == ScrapeDates(allDates, listing, fetch)
  {
    var allEvents: seq<EventRecord> := [];
    for i := 0 to |allDates|
      invariant ScrapeDates(allDates[..i], listing, fetch) == Success(allEvents)
    {
      assert allDates[..i + 1][..i] == allDates[..i];
      var page := ScrapeEventsPage(listing, fetch, allDates[i]);
      if page.Failure? {
        ConcatAllFailurePersists(allDates, i + 1, PageOfDate(listing, fetch));
        return Failure(page.error);
      }
      allEvents := allEvents + page.value;
    }
    assert allDates[..|allDates|] == allDates;
    r := Success(allEvents);
  }

  /** get_events_for_dates: collect the dates, then the events of each. */
  method GetEventsForDates(start: Date, end: Date, listing: seq<string>, fetch: string -> DetailPage)
    returns (r: Result<seq<EventRecord>, ScrapeError>)
    ensures r == EventsForDates(start, end, listing, fetch)
  {
    var allDates := CollectDates(start, end);
    if allDates.Failure? {
      return Failure(allDates.error);
    }
    r := ExtendWithPages(allDates.value, listing, fetch);
  }
}
