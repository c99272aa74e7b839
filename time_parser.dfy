/** make_datetime_obj and the regular expressions it uses:
      ONE_TIME_RE = ([0-9]{1,2}):([0-9]{2})\s*(a|p|n)
      TIME_RE     = ONE_TIME_RE .*? ONE_TIME_RE
    applied with re.match, so anchored at the start of the text but not at
    its end, and with '.' not matching a newline. */
module TimeParser {
  import opened Wrappers
  import opened PyText
  import opened Calendar

  /** The marker group (a|p|n): AM, PM or noon, lower case only. */
  predicate IsMarker(c: char)
  {
    c == 'a' || c == 'p' || c == 'n'
  }

  /** Where one occurrence of ONE_TIME_RE lies in a text: it starts at `at`,
      the hour group has `digits` characters and \s* takes `spaces`. */
  datatype Span = Span(at: nat, digits: nat, spaces: nat)

  /** The offset just past the marker letter. */
  function End(t: Span): nat
  {
    t.at + t.digits + t.spaces + 4
  }

  /** ONE_TIME_RE matches s at t.at with the group lengths t gives. */
  ghost predicate Fits(s: string, t: Span)
  {
    && (t.digits == 1 || t.digits == 2)
    && End(t) <= |s|
    && IsAsciiDigit(s[t.at]) && (t.digits == 2 ==> IsAsciiDigit(s[t.at + 1]))
    && s[t.at + t.digits] == ':'
    && IsAsciiDigit(s[t.at + t.digits + 1]) && IsAsciiDigit(s[t.at + t.digits + 2])
    && (forall k :: t.at + t.digits + 3 <= k < t.at + t.digits + 3 + t.spaces ==> IsSpace(s[k]))
    && IsMarker(s[t.at + t.digits + 3 + t.spaces])
  }

  /** Group 1 (hour), group 2 (minute) and group 3 (marker) of an occurrence. */
  function Hour(s: string, t: Span): nat
    requires Fits(s, t)
  {
    DecimalValue(s[t.at..t.at + t.digits])
  }

  function Minute(s: string, t: Span): nat
    requires Fits(s, t)
  {
    DecimalValue(s[t.at + t.digits + 1..t.at + t.digits + 3])
  }

  function Marker(s: string, t: Span): char
    requires Fits(s, t)
  {
    s[t.at + t.digits + 3 + t.spaces]
  }

  /** ONE_TIME_RE has at most one way to match at any offset: the hour
      cannot be one digit where a second digit follows (':' must follow it),
      and \s* must stop exactly before the marker, which is no whitespace. */
  lemma {:induction false} FitsUnique(s: string, t: Span, u: Span)
    requires Fits(s, t) && Fits(s, u) && t.at == u.at
    ensures t == u
  {
    assert t.digits == 1 ==> s[t.at + 1] == ':';
    assert u.digits == 2 ==> IsAsciiDigit(s[u.at + 1]);
    MarkerIsNoSpace(Marker(s, t));
    MarkerIsNoSpace(Marker(s, u));
  }

  lemma MarkerIsNoSpace(c: char)
    ensures IsMarker(c) ==> !IsSpace(c)
  {
  }

  /** ONE_TIME_RE at offset i with an hour group of exactly d digits. The
      greedy \s* first takes the whole whitespace run (SpacesFrom). Only the
      longest whitespace run can be followed by the marker, so backtracking
      into \s* never finds another match. */
  function MatchWithDigits(s: string, i: nat, d: nat): Option<Span>
    requires d == 1 || d == 2
  {
    if i + d + 3 <= |s| && IsAsciiDigit(s[i]) && (d == 2 ==> IsAsciiDigit(s[i + 1]))
       && s[i + d] == ':' && IsAsciiDigit(s[i + d + 1]) && IsAsciiDigit(s[i + d + 2])
    then
      var w := SpacesFrom(s, i + d + 3);
      if i + d + 3 + w < |s| && IsMarker(s[i + d + 3 + w]) then Some(Span(i, d, w)) else None
    else None
  }

  /** What MatchWithDigits finds is an occurrence with d hour digits at i. */
  lemma MatchWithDigitsSound(s: string, i: nat, d: nat)
    requires d == 1 || d == 2
    ensures var r := MatchWithDigits(s, i, d);
      r.Some? ==> r.value.at == i && r.value.digits == d && Fits(s, r.value)
  {
    if i + d + 3 <= |s| && IsAsciiDigit(s[i]) && (d == 2 ==> IsAsciiDigit(s[i + 1]))
       && s[i + d] == ':' && IsAsciiDigit(s[i + d + 1]) && IsAsciiDigit(s[i + d + 2])
    {
      var w := SpacesFrom(s, i + d + 3);
      if i + d + 3 + w < |s| && IsMarker(s[i + d + 3 + w]) {
        assert Fits(s, Span(i, d, w));
      }
    }
  }

  /** When MatchWithDigits finds nothing, there is no occurrence with d hour
      digits at i. */
  lemma MatchWithDigitsComplete(s: string, i: nat, d: nat)
    requires d == 1 || d == 2
    ensures MatchWithDigits(s, i, d).None? ==> forall w :: !Fits(s, Span(i, d, w))
  {
    if i + d + 3 <= |s| && IsAsciiDigit(s[i]) && (d == 2 ==> IsAsciiDigit(s[i + 1]))
       && s[i + d] == ':' && IsAsciiDigit(s[i + d + 1]) && IsAsciiDigit(s[i + d + 2])
    {
      var w := SpacesFrom(s, i + d + 3);
      if !(i + d + 3 + w < |s| && IsMarker(s[i + d + 3 + w])) {
        NoMarkerAfterRun(s, i, d);
      }
    }
  }

  /** When no marker follows the longest whitespace run, no shorter or
      longer run is followed by one either. */
  lemma NoMarkerAfterRun(s: string, i: nat, d: nat)
    requires i + d + 3 <= |s|
    requires var w := SpacesFrom(s, i + d + 3); !(i + d + 3 + w < |s| && IsMarker(s[i + d + 3 + w]))
    ensures forall v :: !Fits(s, Span(i, d, v))
  {
    var w := SpacesFrom(s, i + d + 3);
    forall v: nat ensures !Fits(s, Span(i, d, v)) {
      if v < w { MarkerIsNoSpace(s[i + d + 3 + v]); }
      else if v > w { assert i + d + 3 + w < |s| ==> !IsSpace(s[i + d + 3 + w]); }
    }
  }

  /** ONE_TIME_RE tried at offset i, in the regular expression engine's
      order: the greedy {1,2} tries two hour digits before one. */
  function MatchOneTime(s: string, i: nat): Option<Span>
  {
    match MatchWithDigits(s, i, 2)
    case Some(t) => Some(t)
    case None => MatchWithDigits(s, i, 1)
  }

  /** MatchOneTime finds the occurrence at i exactly when there is one. */
  lemma MatchOneTimeIsExact(s: string, i: nat)
    ensures var r := MatchOneTime(s, i);
      && (r.Some? ==> r.value.at == i && Fits(s, r.value))
      && (r.None? ==> forall t: Span :: t.at == i ==> !Fits(s, t))
  {
    MatchWithDigitsSound(s, i, 2);
    MatchWithDigitsComplete(s, i, 2);
    MatchWithDigitsSound(s, i, 1);
    MatchWithDigitsComplete(s, i, 1);
    if MatchOneTime(s, i).None? {
      forall t: Span | t.at == i ensures !Fits(s, t) {
        assert t == Span(i, t.digits, t.spaces);
      }
    }
  }

  /** No newline among s[k..q]: the lazy .*? may consume exactly this. */
  ghost predicate NoNewline(s: string, k: nat, q: nat)
  {
    forall j :: k <= j < q && j < |s| ==> s[j] != '\n'
  }

  /** The lazy .*? followed by the second ONE_TIME_RE, from offset k: first
      .*? takes nothing, then one more character at a time, never a newline,
      until ONE_TIME_RE matches. */
  function SecondTime(s: string, k: nat): (r: Option<Span>)
    requires k <= |s|
    decreases |s| - k
  {
    match MatchOneTime(s, k)
    case Some(t) => Some(t)
    case None => if k < |s| && s[k] != '\n' then SecondTime(s, k + 1) else None
  }

  /** What SecondTime finds is an occurrence after k reached without
      crossing a newline, and it is the earliest one; when it finds nothing
      there is no such occurrence. */
  lemma {:induction false} SecondTimeIsEarliest(s: string, k: nat)
    requires k <= |s|
    ensures var r := SecondTime(s, k);
      && (r.Some? ==> k <= r.value.at && Fits(s, r.value) && NoNewline(s, k, r.value.at))
      && (r.Some? ==> forall t: Span :: k <= t.at < r.value.at ==> !Fits(s, t))
      && (r.None? ==> forall t: Span :: k <= t.at && NoNewline(s, k, t.at) ==> !Fits(s, t))
    decreases |s| - k
  {
    MatchOneTimeIsExact(s, k);
    if MatchOneTime(s, k).None? && k < |s| && s[k] != '\n' {
      SecondTimeIsEarliest(s, k + 1);
      var r := SecondTime(s, k + 1);
      assert SecondTime(s, k) == r;
      if r.Some? {
        assert NoNewline(s, k, r.value.at);
      } else {
        forall t: Span | k <= t.at && NoNewline(s, k, t.at) ensures !Fits(s, t) {
          if t.at > k { assert NoNewline(s, k + 1, t.at); }
        }
      }
    }
  }

  /** TIME_RE matches s from offset 0 with these two occurrences of
      ONE_TIME_RE (groups 1-3 and groups 4-6). */
  ghost predicate TimeReMatch(s: string, first: Span, second: Span)
  {
    first.at == 0 && Fits(s, first) && End(first) <= second.at && Fits(s, second)
    && NoNewline(s, End(first), second.at)
  }

  /** re.match(TIME_RE, s). The match returned is the one the engine finds
      first: the first time is fixed (it has one way to match at offset 0),
      and the lazy .*? makes the second the earliest one after it. */
  function MatchTimeRe(s: string): (r: Option<(Span, Span)>)
    ensures r.Some? ==> TimeReMatch(s, r.value.0, r.value.1)
    ensures r.Some? ==> forall u, v :: TimeReMatch(s, u, v) ==> u == r.value.0 && r.value.1.at <= v.at
    ensures r.None? ==> forall u, v :: !TimeReMatch(s, u, v)
  {
    MatchOneTimeIsExact(s, 0);
    match MatchOneTime(s, 0)
    case None => None
    case Some(first) =>
      SecondTimeIsEarliest(s, End(first));
      match SecondTime(s, End(first))
      case None =>
        assert forall u, v :: !TimeReMatch(s, u, v) by {
          forall u, v | TimeReMatch(s, u, v) ensures false {
            FitsUnique(s, u, first);
          }
        }
        None
      case Some(second) =>
        assert forall u, v :: TimeReMatch(s, u, v) ==> u == first && second.at <= v.at by {
          forall u, v | TimeReMatch(s, u, v) ensures u == first && second.at <= v.at {
            FitsUnique(s, u, first);
          }
        }
        Some((first, second))
  }

  /** The 12-hour to 24-hour step of make_datetime_obj: a 'p' hour below 12
      gains 12; 'a' and 'n' hours, and 'p' hours of 12 or more, stay as
      written (so "12:00 a" stays 12). */
  function To24(hour: nat, marker: char): (h: nat)
    ensures h % 12 == hour % 12
    ensures h == hour || h == hour + 12
    ensures h != hour <==> marker == 'p' && hour < 12
    ensures marker == 'p' && hour <= 23 ==> 12 <= h <= 23
  {
    if marker == 'p' && hour < 12 then hour + 12 else hour
  }

  /** make_datetime_obj(date, time), with time None when the event page has
      no "Time:" row. There is no default: every failure is an exception. */
  function MakeDateTime(date: Date, time: Option<string>): (r: Result<(DateTime, DateTime), ScrapeError>)
    ensures time.None? ==> r == Failure(TimeTextMissing)
    ensures time.Some? ==> (r == Failure(NoTimeRange) <==> MatchTimeRe(time.value).None?)
    ensures r.Success? ==> r.value.0.date == date && r.value.1.date == date
    ensures r.Success? ==>
      ValidClock(r.value.0.hour, r.value.0.minute) && ValidClock(r.value.1.hour, r.value.1.minute)
    ensures r.Success? ==> time.Some? && MatchTimeRe(time.value).Some?
    ensures time.Some? && MatchTimeRe(time.value).Some? ==>
      var s := time.value;
      var (t1, t2) := MatchTimeRe(s).value;
      && (r.Success? <==>
            ValidClock(To24(Hour(s, t1), Marker(s, t1)), Minute(s, t1))
            && ValidClock(To24(Hour(s, t2), Marker(s, t2)), Minute(s, t2)))
      && (r.Failure? ==> r.error == ClockOutOfRange)
      && (r.Success? ==>
            r.value.0.hour == To24(Hour(s, t1), Marker(s, t1)) && r.value.0.minute == Minute(s, t1)
            && r.value.1.hour == To24(Hour(s, t2), Marker(s, t2)) && r.value.1.minute == Minute(s, t2))
  {
    match time
    case None => Failure(TimeTextMissing)
    case Some(s) =>
      match MatchTimeRe(s)
      case None => Failure(NoTimeRange)
      case Some((t1, t2)) =>
        var startHour := To24(Hour(s, t1), Marker(s, t1));
        var endHour := To24(Hour(s, t2), Marker(s, t2));
        if !ValidClock(startHour, Minute(s, t1)) then Failure(ClockOutOfRange)
        else if !ValidClock(endHour, Minute(s, t2)) then Failure(ClockOutOfRange)
        else Success((DateTime(date, startHour, Minute(s, t1)), DateTime(date, endHour, Minute(s, t2))))
  }

  /** re.match anchors TIME_RE at offset 0: text that does not start with an
      hour digit has no result, however many times it contains later. */
  lemma NotAnchoredNoMatch(date: Date, s: string)
    requires s == [] || !IsAsciiDigit(s[0])
    ensures MatchTimeRe(s).None?
    ensures MakeDateTime(date, Some(s)) == Failure(NoTimeRange)
  {
    MatchOneTimeIsExact(s, 0);
    if s != [] {
      NoTimeAt(s, 0);
    }
  }

  /** An occurrence of ONE_TIME_RE is what MatchOneTime finds at its offset. */
  lemma MatchOneTimeOfFits(s: string, t: Span)
    requires Fits(s, t)
    ensures MatchOneTime(s, t.at) == Some(t)
  {
    MatchOneTimeIsExact(s, t.at);
    var r := MatchOneTime(s, t.at);
    FitsUnique(s, r.value, t);
  }

  /** The value of the digit at offset k. */
  function DigitAt(s: string, k: nat): int
    requires k < |s|
  {
    (s[k] as int) - ('0' as int)
  }

  /** The hour and minute groups are read as decimal numerals. */
  lemma GroupValues(s: string, t: Span)
    requires Fits(s, t)
    ensures t.digits == 1 ==> Hour(s, t) == DigitAt(s, t.at)
    ensures t.digits == 2 ==> Hour(s, t) == DigitAt(s, t.at) * 10 + DigitAt(s, t.at + 1)
    ensures Minute(s, t) == DigitAt(s, t.at + t.digits + 1) * 10 + DigitAt(s, t.at + t.digits + 2)
  {
    if t.digits == 2 { DecimalOfTwo(s[t.at..t.at + 2]); }
    DecimalOfTwo(s[t.at + t.digits + 1..t.at + t.digits + 3]);
  }

  /** ONE_TIME_RE needs an hour digit where it starts. */
  lemma NoTimeAt(s: string, k: nat)
    requires k < |s| && !IsAsciiDigit(s[k])
    ensures MatchOneTime(s, k).None?
  {
    MatchOneTimeIsExact(s, k);
  }

  /** The lazy .*? steps over characters that cannot start a time, and no
      newline, up to an offset where ONE_TIME_RE matches. */
  lemma {:induction false} SecondTimeReaches(s: string, k: nat, j: nat)
    requires k <= j <= |s|
    requires forall i :: k <= i < j ==> s[i] != '\n' && !IsAsciiDigit(s[i])
    requires MatchOneTime(s, j).Some?
    ensures SecondTime(s, k) == MatchOneTime(s, j)
    decreases j - k
  {
    if k < j {
      assert s[k] != '\n' && !IsAsciiDigit(s[k]);
      NoTimeAt(s, k);
      assert SecondTime(s, k) == SecondTime(s, k + 1);
      SecondTimeReaches(s, k + 1, j);
      assert SecondTime(s, k) == MatchOneTime(s, j);
    } else {
      assert SecondTime(s, k) == MatchOneTime(s, k);
    }
  }

  /** The docstring's example, with its en dash. */
  const MorningText := "9:00 a.m.\U{2013}11:00 a.m."

  lemma MorningFirstFits()
    ensures Fits(MorningText, Span(0, 1, 1))
  {
    var s := MorningText;
    assert s[0] == '9' && s[1] == ':' && s[2] == '0' && s[3] == '0' && s[4] == ' ' && s[5] == 'a';
  }

  lemma MorningSecondFits()
    ensures Fits(MorningText, Span(10, 2, 1))
  {
    var s := MorningText;
    assert s[10] == '1' && s[11] == '1' && s[12] == ':' && s[13] == '0' && s[14] == '0';
    assert s[15] == ' ' && s[16] == 'a';
  }

  /** ".m." and the en dash: nothing for .*? to stop at. */
  lemma MorningGap()
    ensures forall i :: 6 <= i < 10 ==> MorningText[i] != '\n' && !IsAsciiDigit(MorningText[i])
  {
    var s := MorningText;
    assert s[6] == '.' && s[7] == 'm' && s[8] == '.' && s[9] == '\U{2013}';
  }

  lemma MorningFirstTime()
    ensures MatchOneTime(MorningText, 0) == Some(Span(0, 1, 1))
  {
    MorningFirstFits();
    MatchOneTimeOfFits(MorningText, Span(0, 1, 1));
  }

  lemma MorningSecondTime()
    ensures SecondTime(MorningText, 6) == Some(Span(10, 2, 1))
  {
    MorningSecondFits();
    MatchOneTimeOfFits(MorningText, Span(10, 2, 1));
    MorningGap();
    SecondTimeReaches(MorningText, 6, 10);
  }

  lemma MorningMatch()
    ensures MatchTimeRe(MorningText) == Some((Span(0, 1, 1), Span(10, 2, 1)))
  {
    MorningFirstTime();
    MorningSecondTime();
  }

  lemma MorningStartGroups()
    requires Fits(MorningText, Span(0, 1, 1))
    ensures Hour(MorningText, Span(0, 1, 1)) == 9 && Minute(MorningText, Span(0, 1, 1)) == 0
    ensures Marker(MorningText, Span(0, 1, 1)) == 'a'
  {
    var s := MorningText;
    GroupValues(s, Span(0, 1, 1));
    assert s[0] == '9' && s[2] == '0' && s[3] == '0' && s[5] == 'a';
  }

  lemma MorningEndGroups()
    requires Fits(MorningText, Span(10, 2, 1))
    ensures Hour(MorningText, Span(10, 2, 1)) == 11 && Minute(MorningText, Span(10, 2, 1)) == 0
    ensures Marker(MorningText, Span(10, 2, 1)) == 'a'
  {
    var s := MorningText;
    GroupValues(s, Span(10, 2, 1));
    assert s[10] == '1' && s[11] == '1' && s[13] == '0' && s[14] == '0' && s[16] == 'a';
  }

  /** make_datetime_obj on text whose TIME_RE groups are known. */
  lemma {:induction false} MakeDateTimeOfGroups(date: Date, s: string, t1: Span, t2: Span)
    requires MatchTimeRe(s) == Some((t1, t2))
    requires ValidClock(To24(Hour(s, t1), Marker(s, t1)), Minute(s, t1))
    requires ValidClock(To24(Hour(s, t2), Marker(s, t2)), Minute(s, t2))
    ensures MakeDateTime(date, Some(s)) == Success((
              DateTime(date, To24(Hour(s, t1), Marker(s, t1)), Minute(s, t1)),
              DateTime(date, To24(Hour(s, t2), Marker(s, t2)), Minute(s, t2))))
  {
  }

  /** "9:00 a.m.-11:00 a.m." gives 09:00 and 11:00 on the given date. */
  lemma MorningRange(date: Date)
    ensures MakeDateTime(date, Some(MorningText)) == Success((DateTime(date, 9, 0), DateTime(date, 11, 0)))
  {
    MorningMatch();
    MorningStartGroups();
    MorningEndGroups();
    MakeDateTimeOfGroups(date, MorningText, Span(0, 1, 1), Span(10, 2, 1));
  }

  /** The example in the comment above ONE_TIME_RE: an 'a' hour and a
      two-digit 'p' hour, joined by an ASCII hyphen. */
  const AllDayText := "5:00 a.m.-11:00 p.m."

  lemma AllDayFirstFits()
    ensures Fits(AllDayText, Span(0, 1, 1))
  {
    var s := AllDayText;
    assert s[0] == '5' && s[1] == ':' && s[2] == '0' && s[3] == '0' && s[4] == ' ' && s[5] == 'a';
  }

  lemma AllDaySecondFits()
    ensures Fits(AllDayText, Span(10, 2, 1))
  {
    var s := AllDayText;
    assert s[10] == '1' && s[11] == '1' && s[12] == ':' && s[13] == '0' && s[14] == '0';
    assert s[15] == ' ' && s[16] == 'p';
  }

  lemma AllDayGap()
    ensures forall i :: 6 <= i < 10 ==> AllDayText[i] != '\n' && !IsAsciiDigit(AllDayText[i])
  {
    var s := AllDayText;
    assert s[6] == '.' && s[7] == 'm' && s[8] == '.' && s[9] == '-';
  }

  lemma AllDaySecondTime()
    ensures SecondTime(AllDayText, 6) == Some(Span(10, 2, 1))
  {
    AllDaySecondFits();
    MatchOneTimeOfFits(AllDayText, Span(10, 2, 1));
    AllDayGap();
    SecondTimeReaches(AllDayText, 6, 10);
  }

  lemma AllDayMatch()
    ensures MatchTimeRe(AllDayText) == Some((Span(0, 1, 1), Span(10, 2, 1)))
  {
    AllDayFirstFits();
    MatchOneTimeOfFits(AllDayText, Span(0, 1, 1));
    AllDaySecondTime();
  }

  lemma AllDayStartGroups()
    requires Fits(AllDayText, Span(0, 1, 1))
    ensures Hour(AllDayText, Span(0, 1, 1)) == 5 && Minute(AllDayText, Span(0, 1, 1)) == 0
    ensures Marker(AllDayText, Span(0, 1, 1)) == 'a'
  {
    var s := AllDayText;
    GroupValues(s, Span(0, 1, 1));
    assert s[0] == '5' && s[2] == '0' && s[3] == '0' && s[5] == 'a';
  }

  lemma AllDayEndGroups()
    requires Fits(AllDayText, Span(10, 2, 1))
    ensures Hour(AllDayText, Span(10, 2, 1)) == 11 && Minute(AllDayText, Span(10, 2, 1)) == 0
    ensures Marker(AllDayText, Span(10, 2, 1)) == 'p'
  {
    var s := AllDayText;
    GroupValues(s, Span(10, 2, 1));
    assert s[10] == '1' && s[11] == '1' && s[13] == '0' && s[14] == '0' && s[16] == 'p';
  }

  /** "5:00 a.m.-11:00 p.m." gives 05:00 and 23:00: only the 'p' hour gains 12. */
  lemma AllDayRange(date: Date)
    ensures MakeDateTime(date, Some(AllDayText)) == Success((DateTime(date, 5, 0), DateTime(date, 23, 0)))
  {
    AllDayMatch();
    AllDayStartGroups();
    AllDayEndGroups();
    MakeDateTimeOfGroups(date, AllDayText, Span(0, 1, 1), Span(10, 2, 1));
  }
}
