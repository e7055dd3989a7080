// Weekly dayparts: times of day, the local coverage a daypart declares, and what
// it means for two of them to overlap.
module Dayparts {
  import opened Wrappers
  import opened Strings

  const SECONDS_PER_DAY := 86400
  const SECONDS_PER_WEEK := 604800

  // ---- Times of day ----

  function TwoDigits(n: nat): (s: string)
    requires n < 100
    ensures |s| == 2 && IsDigit(s[0]) && IsDigit(s[1])
  {
    [('0' as int + n / 10) as char, ('0' as int + n % 10) as char]
  }

  function Pair(s: string): nat
    requires |s| == 2 && IsDigit(s[0]) && IsDigit(s[1])
  {
    10 * DigitValue(s[0]) + DigitValue(s[1])
  }

  // A number of seconds since midnight as HH:MM:SS.
  function SecToClock(sec: nat): string
    requires sec <= SECONDS_PER_DAY
  {
    TwoDigits(sec / 3600) + ":" + TwoDigits(sec % 3600 / 60) + ":" + TwoDigits(sec % 60)
  }

  predicate IsTwoDigits(p: string) {
    |p| == 2 && IsDigit(p[0]) && IsDigit(p[1])
  }

  predicate InTimeForm(s: string) {
    |s| == 8 && s[2] == s[5] == ':' && IsTwoDigits(s[..2]) && IsTwoDigits(s[3..5]) && IsTwoDigits(s[6..])
  }

  // The lexical form, said directly: eight characters, digits and colons in
  // their places, every component in range.
  function TimeOfDay(s: string): (t: Option<nat>)
    ensures t.Some? ==> t.value < SECONDS_PER_DAY
  {
    if InTimeForm(s) then
      var h, m, sec := Pair(s[..2]), Pair(s[3..5]), Pair(s[6..]);
      if h > 23 || m > 59 || sec > 59 then None else Some(h * 3600 + m * 60 + sec)
    else None
  }

  method ParseTimeOfDay(s: string) returns (t: Option<nat>)
    ensures t == TimeOfDay(s)
  {
    SplitsInThree(s);
    var parts := Split(s, ':');
    if |parts| != 3 { return None; }
    var c := new nat[3];
    for i := 0 to 3
      invariant forall k :: 0 <= k < i ==> IsTwoDigits(parts[k]) && c[k] == Pair(parts[k])
    {
      if !IsTwoDigits(parts[i]) { return None; }
      c[i] := DigitValue(parts[i][0]) * 10 + DigitValue(parts[i][1]);
    }
    var h, m, sec := c[0], c[1], c[2];
    if h > 23 || m > 59 || sec > 59 { return None; }
    return Some(h * 3600 + m * 60 + sec);
  }

  function Join(parts: seq<string>, sep: char): string
    requires |parts| >= 1
  {
    if |parts| == 1 then parts[0] else parts[0] + [sep] + Join(parts[1..], sep)
  }

  lemma {:induction false} JoinSplit(s: string, sep: char)
    ensures Join(Split(s, sep), sep) == s
  {
    if s != "" {
      JoinSplit(s[1..], sep);
      var rest := Split(s[1..], sep);
      assert s == [s[0]] + s[1..];
      if s[0] != sep {
        var parts := [[s[0]] + rest[0]] + rest[1..];
        if |rest| > 1 { assert parts[1..] == rest[1..]; }
      } else {
        assert ([""] + rest)[1..] == rest;
      }
    }
  }

  lemma {:induction false} SplitAfter(p: string, sep: char, rest: string)
    requires forall i :: 0 <= i < |p| ==> p[i] != sep
    ensures Split(p, sep) == [p]
    ensures Split(p + [sep] + rest, sep) == [p] + Split(rest, sep)
  {
    if p == "" {
      assert p + [sep] + rest == [sep] + rest;
    } else {
      SplitAfter(p[1..], sep, rest);
      assert (p + [sep] + rest)[1..] == p[1..] + [sep] + rest;
      assert p == [p[0]] + p[1..];
    }
  }

  lemma CutAt(s: string, k: nat)
    requires k < |s|
    ensures s == s[..k] + [s[k]] + s[k + 1..]
  {
  }

  lemma Slices(s: string)
    requires |s| == 8
    ensures s[3..][..2] == s[3..5] && s[3..][2] == s[5] && s[3..][3..] == s[6..]
  {
  }

  predicate AreThreePairs(parts: seq<string>) {
    |parts| == 3 && IsTwoDigits(parts[0]) && IsTwoDigits(parts[1]) && IsTwoDigits(parts[2])
  }

  // Splitting at colons finds three pairs of digits exactly in a string of the
  // lexical form.
  lemma SplitsInThree(s: string)
    ensures AreThreePairs(Split(s, ':')) <==> InTimeForm(s)
    ensures InTimeForm(s) ==> Split(s, ':') == [s[..2], s[3..5], s[6..]]
  {
    if AreThreePairs(Split(s, ':')) { ThreePairsJoined(s, Split(s, ':')); }
    if InTimeForm(s) { TimeFormSplit(s); }
  }

  lemma ThreePairsJoined(s: string, parts: seq<string>)
    requires parts == Split(s, ':') && AreThreePairs(parts)
    ensures InTimeForm(s)
  {
    JoinSplit(s, ':');
    assert Join(parts[1..], ':') == parts[1] + [':'] + Join(parts[1..][1..], ':');
    assert s == parts[0] + [':'] + (parts[1] + [':'] + parts[2]);
    assert s[..2] == parts[0] && s[3..5] == parts[1] && s[6..] == parts[2];
  }

  lemma TimeFormSplit(s: string)
    requires InTimeForm(s)
    ensures Split(s, ':') == [s[..2], s[3..5], s[6..]]
  {
    SplitAfter(s[6..], ':', "");
    SplitAfter(s[3..5], ':', s[6..]);
    CutAt(s[3..], 2);
    Slices(s);
    SplitAfter(s[..2], ':', s[3..]);
    CutAt(s, 2);
  }

  // Times of day and clocks are in one-to-one correspondence; the end of the day,
  // which a clock can show, is no time within it.
  lemma ClockRoundTrip(sec: nat)
    requires sec <= SECONDS_PER_DAY
    ensures TimeOfDay(SecToClock(sec)) == if sec < SECONDS_PER_DAY then Some(sec) else None
  {
    var s := SecToClock(sec);
    assert s[..2] == TwoDigits(sec / 3600) && s[3..5] == TwoDigits(sec % 3600 / 60) && s[6..] == TwoDigits(sec % 60);
  }

  lemma ClockParts(h: nat, m: nat, sec: nat)
    requires m < 60 && sec < 60
    ensures var t := h * 3600 + m * 60 + sec;
      t / 3600 == h && t % 3600 / 60 == m && t % 60 == sec
  {
    InHour(h, m * 60 + sec);
    InMinute(m, sec);
    InMinute(h * 60 + m, sec);
    assert h * 3600 + m * 60 + sec == (h * 60 + m) * 60 + sec;
  }

  lemma InHour(h: nat, rest: nat)
    requires rest < 3600
    ensures (h * 3600 + rest) / 3600 == h && (h * 3600 + rest) % 3600 == rest
  {
  }

  lemma InMinute(m: nat, sec: nat)
    requires sec < 60
    ensures (m * 60 + sec) / 60 == m && (m * 60 + sec) % 60 == sec
  {
  }

  lemma TimeRoundTrip(s: string)
    requires TimeOfDay(s).Some?
    ensures SecToClock(TimeOfDay(s).value) == s
  {
    var h, m, sec := Pair(s[..2]), Pair(s[3..5]), Pair(s[6..]);
    var t := TimeOfDay(s).value;
    ClockParts(h, m, sec);
    PairRoundTrip(s[..2]);
    PairRoundTrip(s[3..5]);
    PairRoundTrip(s[6..]);
    assert s == s[..2] + ":" + s[3..5] + ":" + s[6..];
  }

  lemma PairRoundTrip(p: string)
    requires IsTwoDigits(p)
    ensures Pair(p) < 100 && TwoDigits(Pair(p)) == p
  {
  }

  // ---- Declared coverage ----

  // days_of_week distinguishes an absent list from an empty one, as the row's
  // structural comparison does.
  datatype Daypart = Daypart(
    id: string,
    scheduleId: string,
    scopeNode: string,
    daysOfWeek: Option<seq<int>>,
    startTime: string,
    endTime: string,
    displayPower: string,
    playlistId: string,
    presetBatchId: string,
    misfire: string,
    name: string,
    revision: int,
    createdAt: int,
    updatedAt: int)

  function DaysOf(d: Daypart): seq<int> {
    if d.daysOfWeek.None? then [] else d.daysOfWeek.value
  }

  // A half-open piece of coverage on one nominal weekday, 0 being Sunday.
  datatype Segment = Segment(weekday: int, from: int, until: int)

  // A local wall-clock reading.
  datatype Reading = Reading(weekday: int, sod: int)

  predicate ValidReading(r: Reading) {
    0 <= r.weekday < 7 && 0 <= r.sod < SECONDS_PER_DAY
  }

  predicate Inside(s: Segment, r: Reading) {
    s.weekday == r.weekday && s.from <= r.sod < s.until
  }

  // One declared day's segments: the window itself, or a head before midnight
  // and a tail on the next weekday. A day outside the week covers nothing.
  function DaySegments(day: int, start: nat, end: nat): seq<Segment> {
    if day < 0 || day > 6 then []
    else if end > start then [Segment(day, start, end)]
    else
      (if start < SECONDS_PER_DAY then [Segment(day, start, SECONDS_PER_DAY)] else [])
      + (if end > 0 then [Segment((day + 1) % 7, 0, end)] else [])
  }

  function AllSegments(days: seq<int>, start: nat, end: nat): seq<Segment> {
    if days == [] then []
    else AllSegments(days[..|days| - 1], start, end) + DaySegments(days[|days| - 1], start, end)
  }

  // None when a time of day does not parse.
  function SegmentsOf(d: Daypart): Option<seq<Segment>> {
    match (TimeOfDay(d.startTime), TimeOfDay(d.endTime))
    case (Some(start), Some(end)) => Some(AllSegments(DaysOf(d), start, end))
    case _ => None
  }

  method DaypartSegments(d: Daypart) returns (segs: Option<seq<Segment>>)
    ensures segs == SegmentsOf(d)
  {
    var start := ParseTimeOfDay(d.startTime);
    var end := ParseTimeOfDay(d.endTime);
    if start.None? || end.None? { return None; }
    var days := DaysOf(d);
    var out := [];
    for i := 0 to |days|
      invariant out == AllSegments(days[..i], start.value, end.value)
    {
      var day := days[i];
      assert days[..i + 1][..i] == days[..i];
      if day < 0 || day > 6 { continue; }
      if end.value > start.value {
        out := out + [Segment(day, start.value, end.value)];
        continue;
      }
      if start.value < SECONDS_PER_DAY { out := out + [Segment(day, start.value, SECONDS_PER_DAY)]; }
      if end.value > 0 { out := out + [Segment((day + 1) % 7, 0, end.value)]; }
    }
    assert days[..|days|] == days;
    return Some(out);
  }

  ghost predicate SomeInside(segs: seq<Segment>, r: Reading) {
    exists k {:trigger segs[k]} :: 0 <= k < |segs| && Inside(segs[k], r)
  }

  ghost predicate Covers(d: Daypart, r: Reading) {
    SegmentsOf(d).Some? && SomeInside(SegmentsOf(d).value, r)
  }

  ghost predicate InDay(day: int, start: nat, end: nat, r: Reading) {
    SomeInside(DaySegments(day, start, end), r)
  }

  ghost predicate InSomeDay(days: seq<int>, start: nat, end: nat, r: Reading) {
    exists i {:trigger days[i]} :: 0 <= i < |days| && InDay(days[i], start, end, r)
  }

  lemma InsideEither(a: seq<Segment>, b: seq<Segment>, r: Reading)
    ensures SomeInside(a + b, r) <==> SomeInside(a, r) || SomeInside(b, r)
  {
    var all := a + b;
    if k :| 0 <= k < |a| && Inside(a[k], r) { assert all[k] == a[k]; }
    if k :| 0 <= k < |b| && Inside(b[k], r) { assert all[|a| + k] == b[k]; }
    if k :| 0 <= k < |all| && Inside(all[k], r) {
      if k < |a| { assert all[k] == a[k]; } else { assert all[k] == b[k - |a|]; }
    }
  }

  lemma InDayOrBefore(days: seq<int>, start: nat, end: nat, r: Reading)
    requires days != []
    ensures InSomeDay(days, start, end, r) <==>
      InSomeDay(days[..|days| - 1], start, end, r) || InDay(days[|days| - 1], start, end, r)
  {
    var n := |days| - 1;
    if i :| 0 <= i < n && InDay(days[..n][i], start, end, r) { assert days[i] == days[..n][i]; }
    if i :| 0 <= i < |days| && InDay(days[i], start, end, r) && i < n { assert days[..n][i] == days[i]; }
  }

  lemma {:induction false} SegmentsComeFromDays(days: seq<int>, start: nat, end: nat, r: Reading)
    ensures SomeInside(AllSegments(days, start, end), r) <==> InSomeDay(days, start, end, r)
  {
    if days != [] {
      var n := |days| - 1;
      SegmentsComeFromDays(days[..n], start, end, r);
      InsideEither(AllSegments(days[..n], start, end), DaySegments(days[n], start, end), r);
      InDayOrBefore(days, start, end, r);
    }
  }

  // ---- Coverage as an arc of the weekly circle ----

  // How long the window is: a window that ends where it starts is a full day.
  function WindowLength(start: nat, end: nat): int {
    if end > start then end - start else end - start + SECONDS_PER_DAY
  }

  predicate OnArc(day: int, start: nat, end: nat, r: Reading) {
    && 0 <= day < 7
    && (r.weekday * SECONDS_PER_DAY + r.sod - day * SECONDS_PER_DAY - start) % SECONDS_PER_WEEK
         < WindowLength(start, end)
  }

  lemma DayIsAnArc(day: int, start: nat, end: nat, r: Reading)
    requires start < SECONDS_PER_DAY && end < SECONDS_PER_DAY && ValidReading(r)
    ensures InDay(day, start, end, r) <==> OnArc(day, start, end, r)
  {
    var segs := DaySegments(day, start, end);
    assert |segs| > 0 ==> (InDay(day, start, end, r) <==> Inside(segs[0], r) || (|segs| > 1 && Inside(segs[1], r)));
    if 0 <= day < 7 {
      var x := (r.weekday - day) * SECONDS_PER_DAY + r.sod - start;
      assert x % SECONDS_PER_WEEK == if x < 0 then x + SECONDS_PER_WEEK else x;
    }
  }

  ghost predicate OnSomeArc(days: seq<int>, start: nat, end: nat, r: Reading) {
    exists i {:trigger days[i]} :: 0 <= i < |days| && OnArc(days[i], start, end, r)
  }

  lemma DaysAreArcs(days: seq<int>, start: nat, end: nat, r: Reading)
    requires start < SECONDS_PER_DAY && end < SECONDS_PER_DAY && ValidReading(r)
    ensures InSomeDay(days, start, end, r) <==> OnSomeArc(days, start, end, r)
  {
    forall i | 0 <= i < |days|
      ensures InDay(days[i], start, end, r) <==> OnArc(days[i], start, end, r)
    {
      DayIsAnArc(days[i], start, end, r);
    }
  }

  // The expansion into segments is exactly this: each declared day opens an arc
  // of the week at the start time, as long as the window, midnight or not.
  lemma CoverageIsArcs(d: Daypart, r: Reading)
    requires ValidReading(r)
    ensures Covers(d, r) <==>
      && TimeOfDay(d.startTime).Some? && TimeOfDay(d.endTime).Some?
      && OnSomeArc(DaysOf(d), TimeOfDay(d.startTime).value, TimeOfDay(d.endTime).value, r)
  {
    if TimeOfDay(d.startTime).Some? && TimeOfDay(d.endTime).Some? {
      var days, start, end := DaysOf(d), TimeOfDay(d.startTime).value, TimeOfDay(d.endTime).value;
      SegmentsComeFromDays(days, start, end, r);
      DaysAreArcs(days, start, end, r);
    }
  }
}
