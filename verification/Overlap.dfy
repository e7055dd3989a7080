// No two dayparts of one schedule may cover one local reading: the validator that
// enforces it, and what it buys at run time.
module Overlaps {
  import opened Wrappers
  import opened Dayparts
  import opened Grouping

  predicate SegmentsIntersect(a: Segment, b: Segment) {
    a.weekday == b.weekday && a.from < b.until && b.from < a.until
  }

  // Some local reading lies in the coverage of both.
  ghost predicate Overlap(a: Daypart, b: Daypart) {
    exists r :: ValidReading(r) && Covers(a, r) && Covers(b, r)
  }

  // The rows of every schedule partition local time.
  ghost predicate Partitioned(dayparts: seq<Daypart>) {
    forall i, j {:trigger Overlap(dayparts[i], dayparts[j])} ::
      0 <= i < j < |dayparts| && dayparts[i].scheduleId == dayparts[j].scheduleId ==> !Overlap(dayparts[i], dayparts[j])
  }

  // ---- Segments ----

  predicate ValidSegment(s: Segment) {
    0 <= s.weekday < 7 && 0 <= s.from < s.until <= SECONDS_PER_DAY
  }

  lemma {:induction false} SegmentsAreValid(days: seq<int>, start: nat, end: nat)
    requires start < SECONDS_PER_DAY && end < SECONDS_PER_DAY
    ensures forall k :: 0 <= k < |AllSegments(days, start, end)| ==> ValidSegment(AllSegments(days, start, end)[k])
  {
    if days != [] { SegmentsAreValid(days[..|days| - 1], start, end); }
  }

  // What a row contributes to the comparison: nothing when a time does not parse.
  function Expanded(d: Daypart): seq<Segment> {
    match SegmentsOf(d) case None => [] case Some(segs) => segs
  }

  ghost predicate Clash(xs: seq<Segment>, ys: seq<Segment>) {
    exists i, j :: 0 <= i < |xs| && 0 <= j < |ys| && SegmentsIntersect(xs[i], ys[j])
  }

  function Later(a: Segment, b: Segment): int { if a.from > b.from then a.from else b.from }

  function Sooner(a: Segment, b: Segment): int { if a.until < b.until then a.until else b.until }

  ghost predicate CoveredByBoth(a: Daypart, b: Daypart, weekday: int, lo: int, hi: int) {
    forall sod :: lo <= sod < hi ==>
      ValidReading(Reading(weekday, sod)) && Covers(a, Reading(weekday, sod)) && Covers(b, Reading(weekday, sod))
  }

  // Intersecting segments are both covered from the later start to the earlier
  // end, a stretch that is never empty.
  lemma IntersectionIsCovered(a: Daypart, b: Daypart, i: nat, j: nat)
    requires i < |Expanded(a)| && j < |Expanded(b)| && SegmentsIntersect(Expanded(a)[i], Expanded(b)[j])
    ensures var sa, sb := Expanded(a)[i], Expanded(b)[j];
      0 <= Later(sa, sb) < Sooner(sa, sb) <= SECONDS_PER_DAY &&
      CoveredByBoth(a, b, sa.weekday, Later(sa, sb), Sooner(sa, sb))
  {
    SegmentsAreValid(DaysOf(a), TimeOfDay(a.startTime).value, TimeOfDay(a.endTime).value);
    SegmentsAreValid(DaysOf(b), TimeOfDay(b.startTime).value, TimeOfDay(b.endTime).value);
    var sa, sb := Expanded(a)[i], Expanded(b)[j];
    forall sod | Later(sa, sb) <= sod < Sooner(sa, sb)
      ensures Covers(a, Reading(sa.weekday, sod)) && Covers(b, Reading(sa.weekday, sod))
    {
      assert Inside(sa, Reading(sa.weekday, sod)) && Inside(sb, Reading(sa.weekday, sod));
    }
  }

  // Two rows overlap exactly when a segment of one intersects a segment of the
  // other.
  lemma OverlapIsClash(a: Daypart, b: Daypart)
    ensures Overlap(a, b) <==> Clash(Expanded(a), Expanded(b))
  {
    var sa, sb := Expanded(a), Expanded(b);
    if i, j :| 0 <= i < |sa| && 0 <= j < |sb| && SegmentsIntersect(sa[i], sb[j]) {
      IntersectionIsCovered(a, b, i, j);
      var r := Reading(sa[i].weekday, Later(sa[i], sb[j]));
      assert Covers(a, r) && Covers(b, r);
    }
    if r :| ValidReading(r) && Covers(a, r) && Covers(b, r) {
      var i :| 0 <= i < |sa| && Inside(sa[i], r);
      var j :| 0 <= j < |sb| && Inside(sb[j], r);
      assert SegmentsIntersect(sa[i], sb[j]);
    }
  }

  // ---- Rows by schedule ----

  function Owner(d: Daypart): string { d.scheduleId }

  ghost predicate CleanGroup(group: seq<Daypart>) {
    forall i, j {:trigger Overlap(group[i], group[j])} :: 0 <= i < j < |group| ==> !Overlap(group[i], group[j])
  }

  // The schedules listed before n have no two rows that overlap.
  ghost predicate CleanUpTo(dayparts: seq<Daypart>, order: seq<string>, n: nat) {
    n <= |order| && forall k {:trigger order[k]} :: 0 <= k < n ==> CleanGroup(Group(dayparts, Owner, order[k]))
  }

  lemma CleanNext(dayparts: seq<Daypart>, order: seq<string>, n: nat)
    requires CleanUpTo(dayparts, order, n) && n < |order| && CleanGroup(Group(dayparts, Owner, order[n]))
    ensures CleanUpTo(dayparts, order, n + 1)
  {
  }

  lemma CleanIsPartitioned(dayparts: seq<Daypart>, order: seq<string>, keys: set<string>)
    requires CleanUpTo(dayparts, order, |order|) && Lists(order, keys)
    requires forall i :: 0 <= i < |dayparts| ==> dayparts[i].scheduleId in keys
    ensures Partitioned(dayparts)
  {
    forall i, j | 0 <= i < j < |dayparts| && dayparts[i].scheduleId == dayparts[j].scheduleId
      ensures !Overlap(dayparts[i], dayparts[j])
    {
      var sid := dayparts[i].scheduleId;
      var k :| 0 <= k < |order| && order[k] == sid;
      var a := GroupHolds(dayparts, Owner, sid, i);
      var b := GroupHolds(dayparts, Owner, sid, j);
      GroupGrows(dayparts, Owner, sid, i, j);
      assert !Overlap(Group(dayparts, Owner, sid)[a], Group(dayparts, Owner, sid)[b]);
    }
  }

  // ---- The validator ----

  // The refusal's content: which rows, and the stretch of the day they share.
  datatype Refusal = Refusal(
    scheduleId: string, first: string, second: string, weekday: int, from: string, until: string)

  // The two rows are of that schedule, and both cover every second named.
  ghost predicate Shows(o: Refusal, a: Daypart, b: Daypart) {
    && o.scheduleId == a.scheduleId == b.scheduleId && o.first == a.id && o.second == b.id
    && exists lo: nat, hi: nat :: lo < hi <= SECONDS_PER_DAY && o.from == SecToClock(lo) && o.until == SecToClock(hi)
         && CoveredByBoth(a, b, o.weekday, lo, hi)
  }

  method FirstClash(xs: seq<Segment>, ys: seq<Segment>) returns (hit: Option<(nat, nat)>)
    ensures hit.None? <==> !Clash(xs, ys)
    ensures hit.Some? ==>
      hit.value.0 < |xs| && hit.value.1 < |ys| && SegmentsIntersect(xs[hit.value.0], ys[hit.value.1])
  {
    for i := 0 to |xs|
      invariant forall k, j :: 0 <= k < i && 0 <= j < |ys| ==> !SegmentsIntersect(xs[k], ys[j])
    {
      for j := 0 to |ys|
        invariant forall k :: 0 <= k < j ==> !SegmentsIntersect(xs[i], ys[k])
      {
        if SegmentsIntersect(xs[i], ys[j]) { return Some((i, j)); }
      }
    }
    return None;
  }

  method ExpandAll(group: seq<Daypart>) returns (segsOf: seq<seq<Segment>>)
    ensures |segsOf| == |group| && forall k :: 0 <= k < |group| ==> segsOf[k] == Expanded(group[k])
  {
    var expanded := new seq<Segment>[|group|];
    for i := 0 to |group|
      invariant forall k :: 0 <= k < i ==> expanded[k] == Expanded(group[k])
    {
      var segs := DaypartSegments(group[i]);
      expanded[i] := if segs.None? then [] else segs.value;
    }
    return expanded[..];
  }

  method ValidatePair(a: Daypart, b: Daypart, xs: seq<Segment>, ys: seq<Segment>) returns (refusal: Option<Refusal>)
    requires a.scheduleId == b.scheduleId && xs == Expanded(a) && ys == Expanded(b)
    ensures refusal.None? <==> !Overlap(a, b)
    ensures refusal.Some? ==> Shows(refusal.value, a, b)
  {
    OverlapIsClash(a, b);
    var hit := FirstClash(xs, ys);
    if hit.None? { return None; }
    IntersectionIsCovered(a, b, hit.value.0, hit.value.1);
    var sa, sb := xs[hit.value.0], ys[hit.value.1];
    return Some(Refusal(a.scheduleId, a.id, b.id, sa.weekday, SecToClock(Later(sa, sb)), SecToClock(Sooner(sa, sb))));
  }

  // The pair (i, j) comes before the pair (k, l) in the scan.
  predicate Before(i: nat, j: nat, k: nat, l: nat) {
    i < k || (i == k && j < l)
  }

  ghost predicate ClearedBefore(group: seq<Daypart>, i: nat, j: nat) {
    forall k, l {:trigger Overlap(group[k], group[l])} :: 0 <= k < l < |group| && Before(k, l, i, j) ==>
      !Overlap(group[k], group[l])
  }

  ghost predicate FirstPair(group: seq<Daypart>, i: nat, j: nat) {
    i < j < |group| && ClearedBefore(group, i, j)
  }

  lemma ClearNext(group: seq<Daypart>, i: nat, j: nat)
    requires i < j <= |group| && ClearedBefore(group, i, j)
    ensures j < |group| && !Overlap(group[i], group[j]) ==> ClearedBefore(group, i, j + 1)
    ensures j == |group| ==> ClearedBefore(group, i + 1, i + 2)
  {
  }

  // One schedule's rows, pair by pair in order, each expanded once.
  method ValidateGroup(group: seq<Daypart>, ghost sid: string)
    returns (refusal: Option<Refusal>, ghost i: nat, ghost j: nat)
    requires forall i :: 0 <= i < |group| ==> group[i].scheduleId == sid
    ensures refusal.None? <==> CleanGroup(group)
    ensures refusal.Some? ==>
      FirstPair(group, i, j) && Overlap(group[i], group[j]) && Shows(refusal.value, group[i], group[j])
  {
    var segsOf := ExpandAll(group);
    for a := 0 to |group|
      invariant ClearedBefore(group, a, a + 1)
    {
      for b := a + 1 to |group|
        invariant ClearedBefore(group, a, b)
      {
        refusal := ValidatePair(group[a], group[b], segsOf[a], segsOf[b]);
        if refusal.Some? {
          i, j := a, b;
          return;
        }
        ClearNext(group, a, b);
      }
      ClearNext(group, a, |group|);
    }
    refusal, i, j := None, 0, 0;
  }

  // The refusal is the first there is: of the schedules in the order their rows are
  // met, the n-th is the first with rows that overlap, and of its pairs of rows the
  // pair shown is the first that do.
  ghost predicate FirstRefusal(dayparts: seq<Daypart>, o: Refusal, n: nat, a: nat, b: nat) {
    var order := FirstMet(dayparts, Owner);
    && n < |order| && CleanUpTo(dayparts, order, n)
    && var group := Group(dayparts, Owner, order[n]);
       FirstPair(group, a, b) && Overlap(group[a], group[b]) && Shows(o, group[a], group[b])
  }

  // Nothing is refused exactly when every schedule's rows partition local time; a
  // refusal is the first, and names two rows of one schedule and a stretch of a
  // weekday both cover.
  method ValidateNoOverlap(dayparts: seq<Daypart>) returns (refusal: Option<Refusal>)
    ensures refusal.None? <==> Partitioned(dayparts)
    ensures refusal.Some? ==> exists i, j :: 0 <= i < j < |dayparts| && Shows(refusal.value, dayparts[i], dayparts[j])
    ensures refusal.Some? ==> exists n, a, b :: FirstRefusal(dayparts, refusal.value, n, a, b)
  {
    var bySchedule, order := GroupBy(dayparts, Owner);
    for i := 0 to |order|
      invariant CleanUpTo(dayparts, order, i)
    {
      var group := bySchedule[order[i]];
      GroupedAt(bySchedule, dayparts, Owner, order[i]);
      ghost var a, b;
      refusal, a, b := ValidateGroup(group, order[i]);
      if refusal.Some? {
        ghost var m, n := PairComesFrom(dayparts, Owner, order[i], a, b);
        assert Overlap(dayparts[m], dayparts[n]);
        assert FirstRefusal(dayparts, refusal.value, i, a, b);
        return;
      }
      CleanNext(dayparts, order, i);
    }
    CleanIsPartitioned(dayparts, order, bySchedule.Keys);
    return None;
  }

  // ---- Holding ----

  // The timezone of a node: every instant has exactly one local reading.
  type Zone = z: int -> Reading | (forall t :: ValidReading(z(t))) witness (t => Reading(0, 0))

  // No zone, or times that do not parse, hold nowhere.
  predicate Holds(d: Daypart, loc: Option<Zone>, t: int) {
    && loc.Some?
    && SegmentsOf(d).Some?
    && var segs, r := SegmentsOf(d).value, loc.value(t);
       exists k :: 0 <= k < |segs| && Inside(segs[k], r)
  }

  function HoldingDaypart(sid: string, dayparts: seq<Daypart>, loc: Option<Zone>, t: int): (held: Option<Daypart>)
    ensures held.Some? ==>
      exists i :: 0 <= i < |dayparts| && dayparts[i] == held.value && held.value.scheduleId == sid &&
        Holds(held.value, loc, t)
    ensures held.None? ==> forall i :: 0 <= i < |dayparts| && dayparts[i].scheduleId == sid ==>
      !Holds(dayparts[i], loc, t)
  {
    if dayparts == [] then None
    else if dayparts[0].scheduleId == sid && Holds(dayparts[0], loc, t) then Some(dayparts[0])
    else
      var rest := HoldingDaypart(sid, dayparts[1..], loc, t);
      assert forall i :: 0 < i < |dayparts| ==> dayparts[i] == dayparts[1..][i - 1];
      rest
  }

  // A daypart holds exactly while the local reading lies on one of its arcs.
  lemma HoldsOnArcs(d: Daypart, loc: Zone, t: int)
    ensures Holds(d, Some(loc), t) <==>
      && TimeOfDay(d.startTime).Some? && TimeOfDay(d.endTime).Some?
      && OnSomeArc(DaysOf(d), TimeOfDay(d.startTime).value, TimeOfDay(d.endTime).value, loc(t))
  {
    CoverageIsArcs(d, loc(t));
  }

  // Where the rows partition time, a schedule has at most one holding row at any
  // instant in any zone, and the scan finds it wherever it stands.
  lemma {:induction false} TheHolderIsFound(dayparts: seq<Daypart>, loc: Option<Zone>, t: int, i: nat)
    requires Partitioned(dayparts) && i < |dayparts| && Holds(dayparts[i], loc, t)
    ensures HoldingDaypart(dayparts[i].scheduleId, dayparts, loc, t) == Some(dayparts[i])
    ensures forall j :: 0 <= j < |dayparts| && j != i && dayparts[j].scheduleId == dayparts[i].scheduleId ==>
      !Holds(dayparts[j], loc, t)
  {
    var r := loc.value(t);
    forall j | 0 <= j < |dayparts| && j != i && dayparts[j].scheduleId == dayparts[i].scheduleId
      ensures !Holds(dayparts[j], loc, t)
    {
      if Holds(dayparts[j], loc, t) {
        assert Covers(dayparts[i], r) && Covers(dayparts[j], r);
        assert Overlap(dayparts[i], dayparts[j]) && Overlap(dayparts[j], dayparts[i]);
        assert false;
      }
    }
  }

  // Row order does not matter.
  lemma HolderIgnoresRowOrder(a: seq<Daypart>, b: seq<Daypart>, sid: string, loc: Option<Zone>, t: int)
    requires Partitioned(a) && multiset(a) == multiset(b)
    ensures HoldingDaypart(sid, a, loc, t) == HoldingDaypart(sid, b, loc, t)
  {
    var inA, inB := HoldingDaypart(sid, a, loc, t), HoldingDaypart(sid, b, loc, t);
    if inA.Some? {
      assert inA.value in multiset(b);
      assert inB.Some?;
    }
    if inB.Some? {
      assert inB.value in multiset(a);
      var i :| 0 <= i < |a| && a[i] == inB.value;
      TheHolderIsFound(a, loc, t, i);
    }
  }

  // The converse: rows the validator refuses do hold together, in some zone.
  lemma OverlapIsObservable(a: Daypart, b: Daypart)
    ensures Overlap(a, b) <==> exists loc: Zone, t: int :: Holds(a, Some(loc), t) && Holds(b, Some(loc), t)
  {
    if r :| ValidReading(r) && Covers(a, r) && Covers(b, r) {
      var loc: Zone := t => r;
      assert Holds(a, Some(loc), 0) && Holds(b, Some(loc), 0);
    }
    if loc: Zone, t: int :| Holds(a, Some(loc), t) && Holds(b, Some(loc), t) {
      assert Covers(a, loc(t)) && Covers(b, loc(t));
    }
  }
}
