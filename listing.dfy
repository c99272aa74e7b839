/** get_all_event_urls: the detail-page links of the listing page. Each
    events_title cell links through a JavaScript popup call, from which
    EVENT_JS_RE = openWindow\('([A-Za-z0-9=\?_.-]*)' takes a relative path
    (re.search, so the leftmost match), and urljoin resolves it against
    BASE_EVENTS_URL. */
module Listing {
  import opened Wrappers

  /** BASE_EVENTS_URL, "http://apps.carleton.edu/calendar/", written as its
      scheme and authority followed by its path. */
  const BaseEventsUrl := BaseOrigin + BasePath

  const BaseOrigin := "http://apps.carleton.edu"

  const BasePath := "/calendar/"

  /** The literal part of EVENT_JS_RE before its group. */
  const OpenWindowCall := "openWindow('"

  /** The character class [A-Za-z0-9=\?_.-] of the captured path. */
  predicate InPathClass(c: char)
  {
    ('A' <= c <= 'Z') || ('a' <= c <= 'z') || ('0' <= c <= '9')
    || c == '=' || c == '?' || c == '_' || c == '.' || c == '-'
  }

  predicate IsPath(s: string)
  {
    forall i :: 0 <= i < |s| ==> InPathClass(s[i])
  }

  /** EVENT_JS_RE matches s at offset p with a group of n characters. */
  ghost predicate CaptureAt(s: string, p: nat, n: nat)
  {
    && p + |OpenWindowCall| + n < |s|
    && s[p..p + |OpenWindowCall|] == OpenWindowCall
    && (forall k :: p + |OpenWindowCall| <= k < p + |OpenWindowCall| + n ==> InPathClass(s[k]))
    && s[p + |OpenWindowCall| + n] == '\''
  }

  /** At one offset EVENT_JS_RE matches in at most one way: the closing quote
      is not in the class, so only the longest run can be followed by it. */
  lemma {:induction false} CaptureUnique(s: string, p: nat, n: nat, m: nat)
    requires CaptureAt(s, p, n) && CaptureAt(s, p, m)
    ensures n == m
  {
  }

  /** The length of the run of class characters from k: what the greedy *
      takes before it backtracks. */
  function PathRun(s: string, k: nat): (n: nat)
    requires k <= |s|
    ensures k + n <= |s|
    ensures forall i :: k <= i < k + n ==> InPathClass(s[i])
    ensures k + n < |s| ==> !InPathClass(s[k + n])
    decreases |s| - k
  {
    if k < |s| && InPathClass(s[k]) then PathRun(s, k + 1) + 1 else 0
  }

  /** EVENT_JS_RE tried at offset k alone: the literal call, then the
      greedy run of class characters, which must be followed by the quote. */
  function CaptureHere(s: string, k: nat): Option<nat>
    requires k <= |s|
  {
    var g := k + |OpenWindowCall|;
    if g <= |s| && s[k..g] == OpenWindowCall then
      var n := PathRun(s, g);
      if g + n < |s| && s[g + n] == '\'' then Some(n) else None
    else None
  }

  /** CaptureHere finds the match at k exactly when there is one. */
  lemma CaptureHereIsExact(s: string, k: nat)
    requires k <= |s|
    ensures CaptureHere(s, k).Some? ==> CaptureAt(s, k, CaptureHere(s, k).value)
    ensures CaptureHere(s, k).None? ==> forall m: nat :: !CaptureAt(s, k, m)
  {
    var g := k + |OpenWindowCall|;
    if CaptureHere(s, k).None? {
      forall m: nat ensures !CaptureAt(s, k, m) {
        if g <= |s| && s[k..g] == OpenWindowCall {
          var n := PathRun(s, g);
          assert m < n ==> InPathClass(s[g + m]);
          assert m > n && g + n < |s| ==> !InPathClass(s[g + n]);
        }
      }
    }
  }

  /** re.search(EVENT_JS_RE, s) from offset k on: the leftmost offset where
      the pattern matches, with the length of its group. */
  function SearchFrom(s: string, k: nat): Option<(nat, nat)>
    requires k <= |s|
    decreases |s| - k
  {
    match CaptureHere(s, k)
    case Some(n) => Some((k, n))
    case None => if k < |s| then SearchFrom(s, k + 1) else None
  }

  /** A result of SearchFrom is a match and nothing matches before it; None
      means no offset from k on matches. */
  lemma {:induction false} SearchFromIsLeftmost(s: string, k: nat)
    requires k <= |s|
    ensures var r := SearchFrom(s, k);
      && (r.Some? ==> k <= r.value.0 && CaptureAt(s, r.value.0, r.value.1))
      && (r.Some? ==> forall q: nat, m: nat :: k <= q < r.value.0 ==> !CaptureAt(s, q, m))
      && (r.None? ==> forall q: nat, m: nat :: k <= q ==> !CaptureAt(s, q, m))
    decreases |s| - k
  {
    CaptureHereIsExact(s, k);
    if CaptureHere(s, k).None? {
      if k < |s| {
        SearchFromIsLeftmost(s, k + 1);
        var r := SearchFrom(s, k + 1);
        assert SearchFrom(s, k) == r;
        if r.Some? {
          forall q: nat, m: nat | k <= q < r.value.0 ensures !CaptureAt(s, q, m) {
            if q > k { assert k + 1 <= q < r.value.0; }
          }
        } else {
          forall q: nat, m: nat | k <= q ensures !CaptureAt(s, q, m) {
            if q > k { assert k + 1 <= q; }
          }
        }
      } else {
        assert forall q: nat, m: nat :: k < q ==> !CaptureAt(s, q, m);
      }
    }
  }

  /** The group of re.search(EVENT_JS_RE, href), or None when it does not match. */
  function EventPath(href: string): (r: Option<string>)
    ensures r.Some? ==> IsPath(r.value)
    ensures r.None? <==> forall q: nat, m: nat :: !CaptureAt(href, q, m)
  {
    SearchFromIsLeftmost(href, 0);
    match SearchFrom(href, 0)
    case None => None
    case Some((p, n)) =>
      var g := p + |OpenWindowCall|;
      Some(href[g..g + n])
  }

  /** The path taken is the group of the leftmost openWindow('...') call in
      the href: what follows the call's opening quote, up to its closing one. */
  lemma EventPathIsLeftmost(href: string)
    requires EventPath(href).Some?
    ensures exists p: nat :: CaptureAt(href, p, |EventPath(href).value|)
              && href[p + |OpenWindowCall|..p + |OpenWindowCall| + |EventPath(href).value|] == EventPath(href).value
              && forall q: nat, m: nat :: q < p ==> !CaptureAt(href, q, m)
  {
    SearchFromIsLeftmost(href, 0);
    var (p, n) := SearchFrom(href, 0).value;
    assert CaptureAt(href, p, |EventPath(href).value|);
  }

  /** A reference cut at its first '?': the path before it, and the query
      after it when there is a '?' at all (it may be empty). */
  datatype PathAndQuery = PathAndQuery(path: string, query: Option<string>)

  /** Reassembles a reference from its parts. */
  function Unsplit(pq: PathAndQuery): string
  {
    pq.path + (if pq.query.Some? then "?" + pq.query.value else "")
  }

  /** The offset of the first '?' from i on, or |rel| when there is none. */
  function MarkFrom(rel: string, i: nat): (n: nat)
    requires i <= |rel|
    ensures i <= n <= |rel|
    ensures forall k :: i <= k < n ==> rel[k] != '?'
    ensures n < |rel| ==> rel[n] == '?'
    decreases |rel| - i
  {
    if i == |rel| || rel[i] == '?' then i else MarkFrom(rel, i + 1)
  }

  /** urlsplit's query split for a reference without '#': the text before
      the first '?' and the text after it. */
  function SplitQuery(rel: string): (r: PathAndQuery)
    ensures forall i :: 0 <= i < |r.path| ==> r.path[i] != '?'
    ensures |r.path| <= |rel| && r.path == rel[..|r.path|]
    ensures Unsplit(r) == rel
  {
    var n := MarkFrom(rel, 0);
    if n == |rel| then
      assert rel[..|rel|] == rel;
      PathAndQuery(rel, None)
    else
      SplitAround(rel, n);
      PathAndQuery(rel[..n], Some(rel[n + 1..]))
  }

  lemma SplitAround(s: string, n: nat)
    requires n < |s|
    ensures s[..n] + ([s[n]] + s[n + 1..]) == s
  {
  }

  /** What urlunsplit writes for the query: nothing when it is absent or empty. */
  function QueryPart(query: Option<string>): string
  {
    if query.Some? && query.value != "" then "?" + query.value else ""
  }

  /** The path urljoin builds: the base path BasePath with its empty last
      segment replaced by the reference's single segment, after removing the
      dot segments "." and ".."; an empty reference path keeps the base path. */
  function ResolvedPath(path: string): string
  {
    if path == "" || path == "." then BasePath
    else if path == ".." then "/"
    else BasePath + path
  }

  /** urljoin(BaseEventsUrl, rel) for a captured path. Such a path has no
      '/', ':', '#', ';' or '%', so it is a relative reference with no scheme
      and no authority whose path is at most one segment: urljoin keeps the
      base's scheme and authority, resolves the path as ResolvedPath does and
      appends the query. As urlunsplit writes no '?' before an empty query, a
      trailing '?' is dropped (section 5.3 of RFC 3986 would keep it). */
  function JoinEventUrl(rel: string): (url: string)
    requires IsPath(rel)
  {
    if rel == "" then BaseEventsUrl   // urljoin returns the base for an empty reference
    else
      var pq := SplitQuery(rel);
      BaseOrigin + ResolvedPath(pq.path) + QueryPart(pq.query)
  }

  /** The joined URL stays on the calendar site. */
  lemma {:induction false} JoinKeepsOrigin(rel: string)
    requires IsPath(rel)
    ensures |BaseOrigin| < |JoinEventUrl(rel)|
    ensures JoinEventUrl(rel)[..|BaseOrigin| + 1] == BaseOrigin + "/"
  {
    var rest := OriginRest(rel);
    FirstAfterPrefix(BaseOrigin, rest, '/');
  }

  /** The joined URL is the base's origin followed by a path from the root. */
  lemma OriginRest(rel: string) returns (rest: string)
    requires IsPath(rel)
    ensures JoinEventUrl(rel) == BaseOrigin + rest
    ensures |rest| > 0 && rest[0] == '/'
  {
    if rel == "" {
      rest := BasePath;
      assert BasePath[0] == '/';
    } else {
      var pq := SplitQuery(rel);
      ResolvedStartsWithSlash(pq.path);
      rest := ResolvedPath(pq.path) + QueryPart(pq.query);
      ConcatAssoc(BaseOrigin, ResolvedPath(pq.path), QueryPart(pq.query));
    }
  }

  lemma ConcatAssoc(a: string, b: string, c: string)
    ensures a + b + c == a + (b + c)
  {
  }

  lemma ResolvedStartsWithSlash(path: string)
    ensures |ResolvedPath(path)| > 0 && ResolvedPath(path)[0] == '/'
  {
    assert BasePath[0] == '/';
  }

  lemma FirstAfterPrefix(a: string, b: string, c: char)
    requires |b| > 0 && b[0] == c
    ensures (a + b)[..|a| + 1] == a + [c]
  {
  }

  lemma ResolvedPlainPath(path: string)
    requires path != "." && path != ".."
    ensures ResolvedPath(path) == BasePath + path
  {
    if path == "" {
      assert BasePath + path == BasePath;
    }
  }

  lemma QueryPartPresent(query: Option<string>)
    requires query != Some("")
    ensures QueryPart(query) == if query.Some? then "?" + query.value else ""
  {
  }

  lemma {:induction false} JoinPlainParts(pq: PathAndQuery)
    requires pq.path != "." && pq.path != ".." && pq.query != Some("")
    ensures BaseOrigin + ResolvedPath(pq.path) + QueryPart(pq.query) == BaseEventsUrl + Unsplit(pq)
  {
    ResolvedPlainPath(pq.path);
    QueryPartPresent(pq.query);
    var tail := QueryPart(pq.query);
    assert Unsplit(pq) == pq.path + tail;
    Regroup(BaseOrigin, BasePath, pq.path, tail);
  }

  lemma Regroup(a: string, b: string, c: string, d: string)
    ensures a + (b + c) + d == (a + b) + (c + d)
  {
  }

  /** The usual case: the path is appended to BaseEventsUrl as it is. */
  lemma {:induction false} JoinAppends(rel: string)
    requires IsPath(rel)
    requires var pq := SplitQuery(rel); pq.path != "." && pq.path != ".." && pq.query != Some("")
    ensures JoinEventUrl(rel) == BaseEventsUrl + rel
  {
    if rel == "" {
      assert BaseEventsUrl + rel == BaseEventsUrl;
    } else {
      JoinPlainParts(SplitQuery(rel));
    }
  }

  /** A reference without '?' is all path. */
  lemma SplitQueryWithoutMark(rel: string)
    requires forall i :: 0 <= i < |rel| ==> rel[i] != '?'
    ensures SplitQuery(rel) == PathAndQuery(rel, None)
  {
    assert MarkFrom(rel, 0) == |rel|;
  }

  /** The dot segments: "." stays at BaseEventsUrl, ".." climbs to the site root. */
  lemma {:induction false} JoinDotSegments(rel: string)
    requires IsPath(rel)
    ensures SplitQuery(rel).path == "." ==> JoinEventUrl(rel) == BaseEventsUrl + QueryPart(SplitQuery(rel).query)
    ensures SplitQuery(rel).path == ".." ==> JoinEventUrl(rel) == BaseOrigin + "/" + QueryPart(SplitQuery(rel).query)
  {
  }

  /** A '?' with nothing after it is lost: the URL is the one for the path alone. */
  lemma {:induction false} JoinDropsEmptyQuery(rel: string)
    requires IsPath(rel)
    requires SplitQuery(rel).query == Some("")
    ensures IsPath(SplitQuery(rel).path)
    ensures JoinEventUrl(rel) == JoinEventUrl(SplitQuery(rel).path)
  {
    var path := SplitQuery(rel).path;
    SplitQueryWithoutMark(path);
  }

  /** The absolute URL get_all_event_urls appends for one events_title
      cell's href, or None when the cell is skipped. */
  function CellUrl(href: string): Option<string>
  {
    match EventPath(href)
    case None => None
    case Some(path) => Some(JoinEventUrl(path))
  }

  /** The values f gives the elements of xs that it maps to Some, in order. */
  function FilterMap<T, U>(xs: seq<T>, f: T -> Option<U>): seq<U>
  {
    if xs == [] then []
    else
      var last := f(xs[|xs| - 1]);
      FilterMap(xs[..|xs| - 1], f) + (if last.Some? then [last.value] else [])
  }

  lemma {:induction false} FilterMapAppend<T, U>(a: seq<T>, b: seq<T>, f: T -> Option<U>)
    ensures FilterMap(a + b, f) == FilterMap(a, f) + FilterMap(b, f)
    decreases |b|
  {
    if b == [] {
      assert a + b == a;
    } else {
      var b' := b[..|b| - 1];
      assert (a + b)[..|a + b| - 1] == a + b';
      FilterMapAppend(a, b', f);
    }
  }

  lemma {:induction false} FilterMapLength<T, U>(xs: seq<T>, f: T -> Option<U>)
    ensures |FilterMap(xs, f)| <= |xs|
    ensures (forall i :: 0 <= i < |xs| ==> f(xs[i]).Some?) ==> |FilterMap(xs, f)| == |xs|
    ensures (forall i :: 0 <= i < |xs| ==> f(xs[i]).None?) ==> FilterMap(xs, f) == []
  {
    if xs != [] {
      var xs' := xs[..|xs| - 1];
      assert forall i :: 0 <= i < |xs'| ==> xs'[i] == xs[i];
      FilterMapLength(xs', f);
    }
  }

  lemma {:induction false} FilterMapMembers<T, U>(xs: seq<T>, f: T -> Option<U>, y: U)
    ensures y in FilterMap(xs, f) <==> exists i :: 0 <= i < |xs| && f(xs[i]) == Some(y)
  {
    if xs != [] {
      var n := |xs| - 1;
      var xs' := xs[..n];
      FilterMapMembers(xs', f, y);
      if y in FilterMap(xs, f) && y in FilterMap(xs', f) {
        var i :| 0 <= i < |xs'| && f(xs'[i]) == Some(y);
        assert xs[i] == xs'[i];
      }
      if exists i :: 0 <= i < |xs| && f(xs[i]) == Some(y) {
        var i :| 0 <= i < |xs| && f(xs[i]) == Some(y);
        if i < n {
          assert xs'[i] == xs[i];
        }
      }
    }
  }

  /** The URLs of the cells, in document order: one per cell whose href
      EVENT_JS_RE matches, none for the others, duplicates kept. */
  function EventUrls(hrefs: seq<string>): seq<string>
  {
    FilterMap(hrefs, CellUrl)
  }

  /** Document order: the URLs of consecutive runs of cells follow one another. */
  lemma EventUrlsAppend(a: seq<string>, b: seq<string>)
    ensures EventUrls(a + b) == EventUrls(a) + EventUrls(b)
  {
    FilterMapAppend(a, b, CellUrl);
  }

  /** One URL per matching cell, none for the others. */
  lemma EventUrlsOfCell(href: string)
    ensures EventUrls([href]) == if CellUrl(href).Some? then [CellUrl(href).value] else []
  {
    assert [href][..0] == [];
    assert FilterMap([href], CellUrl) == FilterMap([], CellUrl)
      + (if CellUrl(href).Some? then [CellUrl(href).value] else []);
  }

  /** Every cell adds at most one URL. */
  lemma EventUrlsLength(hrefs: seq<string>)
    ensures |EventUrls(hrefs)| <= |hrefs|
    ensures (forall i :: 0 <= i < |hrefs| ==> CellUrl(hrefs[i]).Some?) ==> |EventUrls(hrefs)| == |hrefs|
    ensures (forall i :: 0 <= i < |hrefs| ==> CellUrl(hrefs[i]).None?) ==> EventUrls(hrefs) == []
  {
    FilterMapLength(hrefs, CellUrl);
  }

  /** A URL is in the list exactly when some cell produces it. */
  lemma EventUrlsMembers(hrefs: seq<string>, url: string)
    ensures url in EventUrls(hrefs) <==> exists i :: 0 <= i < |hrefs| && CellUrl(hrefs[i]) == Some(url)
  {
    FilterMapMembers(hrefs, CellUrl, url);
  }

  /** get_all_event_urls over the hrefs of the events_title cells' first
      anchors, in document order. */
  method GetAllEventUrls(hrefs: seq<string>) returns (allEventUrls: seq<string>)
    ensures allEventUrls == EventUrls(hrefs)
  {
    allEventUrls := [];
    for i := 0 to |hrefs|
      invariant allEventUrls == EventUrls(hrefs[..i])
    {
      assert hrefs[..i + 1][..i] == hrefs[..i];
      assert EventUrls(hrefs[..i + 1]) == FilterMap(hrefs[..i], CellUrl)
        + (if CellUrl(hrefs[i]).Some? then [CellUrl(hrefs[i]).value] else []);
      var relativeUrlMatch := EventPath(hrefs[i]);
      if relativeUrlMatch.Some? {
        var absUrl := JoinEventUrl(relativeUrlMatch.value);
        allEventUrls := allEventUrls + [absUrl];
      }
    }
    assert hrefs[..|hrefs|] == hrefs;
  }
}
