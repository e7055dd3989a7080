// When a scope node's preset batch fires: on a change of the effective daypart's
// identity, through clock ticks and through re-applies of the desired state.
module Presets {
  import opened Wrappers
  import opened Dayparts
  import opened Overlaps
  import opened Resolution

  // ---- Rows ----

  // A list, a map or a raw value that may be absent is an Option: the structural
  // comparison tells an absent one from an empty one.
  datatype PresetCommand = PresetCommand(entityId: string, command: string, params: Option<string>)

  datatype CommandResult = CommandResult(entityId: string, ok: bool, error: string)

  datatype PresetBatchOutcome = PresetBatchOutcome(
    outcome: string, results: Option<seq<CommandResult>>, evaluatedAt: int)

  datatype PresetBatch = PresetBatch(
    presetId: string,
    scopeNode: string,
    name: string,
    commands: Option<seq<PresetCommand>>,
    lastOutcome: Option<PresetBatchOutcome>,
    externalId: string,
    labels: Option<map<string, string>>,
    revision: int,
    createdAt: int,
    updatedAt: int)

  // One generation's scheduling rows.
  datatype Section = Section(store: RowStore, batches: seq<PresetBatch>)

  function FindDaypart(rows: seq<Daypart>, id: string): (found: Option<Daypart>)
    ensures found.Some? ==> found.value.id == id && exists i :: 0 <= i < |rows| && rows[i] == found.value
  {
    if rows == [] then None
    else if rows[0].id == id then Some(rows[0])
    else
      var rest := FindDaypart(rows[1..], id);
      assert forall i :: 0 < i < |rows| ==> rows[i] == rows[1..][i - 1];
      rest
  }

  function FindBatch(rows: seq<PresetBatch>, id: string): Option<PresetBatch> {
    if rows == [] then None else if rows[0].presetId == id then Some(rows[0]) else FindBatch(rows[1..], id)
  }

  function FindSchedule(rows: seq<Schedule>, id: string): Option<Schedule> {
    if rows == [] then None else if rows[0].id == id then Some(rows[0]) else FindSchedule(rows[1..], id)
  }

  // ---- The rising edge ----

  datatype PresetFire = PresetFire(daypartId: string, batchId: string)

  // The identity that keys the edge; empty for a state with no effective daypart.
  function EffectiveDaypartId(s: Option<EffectiveState>): string {
    if s.None? || s.value.daypart.None? then "" else s.value.daypart.value.id
  }

  function PresetTransition(prev: Option<EffectiveState>, cur: Option<EffectiveState>): Option<PresetFire> {
    var id := EffectiveDaypartId(cur);
    if id == "" then None
    else if id == EffectiveDaypartId(prev) then None
    else
      var batch := cur.value.daypart.value.presetBatchId;
      if batch == "" then None else Some(PresetFire(id, batch))
  }

  // A daypart's own misfire, else its schedule's, else the recurring default.
  function EffectiveMisfire(d: Daypart, owning: Option<Schedule>): string {
    if d.misfire != "" then d.misfire
    else if owning.Some? && owning.value.misfire != "" then owning.value.misfire
    else "catch_up_once"
  }

  function MisfireFor(section: Section, daypartId: string): string {
    match FindDaypart(section.store.dayparts, daypartId)
    case None => "catch_up_once"
    case Some(d) => EffectiveMisfire(d, FindSchedule(section.store.schedules, d.scheduleId))
  }

  // ---- Carrying a baseline across an apply ----

  function SameDaypart(a: Option<Daypart>, b: Option<Daypart>): bool {
    if a.None? || b.None? then a.None? && b.None?
    else
      a.value.(revision := 0, createdAt := 0, updatedAt := 0) == b.value.(revision := 0, createdAt := 0, updatedAt := 0)
  }

  function SamePresetBatch(a: Option<PresetBatch>, b: Option<PresetBatch>): bool {
    if a.None? || b.None? then a.None? && b.None?
    else
      a.value.(lastOutcome := None, revision := 0, createdAt := 0, updatedAt := 0)
      == b.value.(lastOutcome := None, revision := 0, createdAt := 0, updatedAt := 0)
  }

  function MayCarryAcrossApply(prev: Option<EffectiveState>, prevBatch: Option<PresetBatch>, applied: Section): bool {
    if prev.None? then false
    else if prev.value.daypart.None? then true
    else
      var cur := FindDaypart(applied.store.dayparts, prev.value.daypart.value.id);
      if cur.None? || !SameDaypart(prev.value.daypart, cur) then false
      else if cur.value.presetBatchId == "" then true
      else SamePresetBatch(prevBatch, FindBatch(applied.batches, cur.value.presetBatchId))
  }

  // A row that differs from another in bookkeeping only.
  ghost predicate Restamped(a: Daypart, b: Daypart) {
    exists revision, created, updated :: b == a.(revision := revision, createdAt := created, updatedAt := updated)
  }

  // The same, and possibly with another invocation recorded.
  ghost predicate Rerecorded(a: PresetBatch, b: PresetBatch) {
    exists outcome, revision, created, updated ::
      b == a.(lastOutcome := outcome, revision := revision, createdAt := created, updatedAt := updated)
  }

  lemma SameDaypartIsRestamped(a: Daypart, b: Daypart)
    ensures SameDaypart(Some(a), Some(b)) <==> Restamped(a, b)
  {
    if SameDaypart(Some(a), Some(b)) {
      var zeroed := a.(revision := 0, createdAt := 0, updatedAt := 0);
      assert b == zeroed.(revision := b.revision, createdAt := b.createdAt, updatedAt := b.updatedAt);
      assert b == a.(revision := b.revision, createdAt := b.createdAt, updatedAt := b.updatedAt);
    }
  }

  lemma SameBatchIsRerecorded(a: PresetBatch, b: PresetBatch)
    ensures SamePresetBatch(Some(a), Some(b)) <==> Rerecorded(a, b)
  {
    if SamePresetBatch(Some(a), Some(b)) {
      var o, r, c, u := b.lastOutcome, b.revision, b.createdAt, b.updatedAt;
      var zeroed := a.(lastOutcome := None, revision := 0, createdAt := 0, updatedAt := 0);
      assert b == zeroed.(lastOutcome := o, revision := r, createdAt := c, updatedAt := u);
      assert b == a.(lastOutcome := o, revision := r, createdAt := c, updatedAt := u);
    }
  }

  // A baseline with an effective daypart survives an apply exactly when the rows a
  // fire would assert differ at most in bookkeeping and recorded outcomes.
  lemma MayCarryIff(prev: EffectiveState, prevBatch: Option<PresetBatch>, applied: Section)
    ensures MayCarryAcrossApply(Some(prev), prevBatch, applied) <==>
      prev.daypart.None? ||
      var d := prev.daypart.value;
      var row := FindDaypart(applied.store.dayparts, d.id);
      && row.Some? && Restamped(d, row.value)
      && (d.presetBatchId == "" ||
          var batch := FindBatch(applied.batches, d.presetBatchId);
          (prevBatch.None? && batch.None?) ||
            (prevBatch.Some? && batch.Some? && Rerecorded(prevBatch.value, batch.value)))
  {
    if prev.daypart.Some? {
      var d := prev.daypart.value;
      var row := FindDaypart(applied.store.dayparts, d.id);
      if row.Some? {
        SameDaypartIsRestamped(d, row.value);
        var batch := FindBatch(applied.batches, d.presetBatchId);
        if prevBatch.Some? && batch.Some? { SameBatchIsRerecorded(prevBatch.value, batch.value); }
      }
    }
  }

  // ---- A node's run ----

  // What resolves a node now: nothing, or a resolver over one generation's rows
  // with the state its last successful resolve reached.
  datatype Node = Unresolved | Resolving(section: Section, prev: Option<EffectiveState>)

  // A clock tick, or an apply of a new generation; resolved is None when
  // resolution fails.
  datatype Event =
    | Tick(resolved: Option<EffectiveState>)
    | Apply(section: Section, governed: bool, resolved: Option<EffectiveState>)

  // The preset-batch row the outgoing baseline stands for.
  function CarriedBatch(n: Node): Option<PresetBatch>
    requires n.Resolving?
  {
    if n.prev.None? || n.prev.value.daypart.None? || n.prev.value.daypart.value.presetBatchId == "" then None
    else FindBatch(n.section.batches, n.prev.value.daypart.value.presetBatchId)
  }

  predicate Carries(n: Node, applied: Section) {
    n.Resolving? && MayCarryAcrossApply(n.prev, CarriedBatch(n), applied)
  }

  // The batch dispatched on a resolver's first tick, which a skip misfire
  // suppresses.
  function BootFire(section: Section, baseline: Option<EffectiveState>, s: EffectiveState): Option<PresetFire> {
    var fire := PresetTransition(baseline, Some(s));
    if fire.Some? && MisfireFor(section, fire.value.daypartId) == "skip" then None else fire
  }

  function Step(n: Node, e: Event): (Node, Option<PresetFire>) {
    match e
    case Tick(resolved) =>
      if n.Unresolved? || resolved.None? then (n, None)
      else (Resolving(n.section, resolved), PresetTransition(n.prev, resolved))
    case Apply(section, governed, resolved) =>
      if !governed || resolved.None? then (Unresolved, None)
      else
        var baseline := if Carries(n, section) then n.prev else None;
        (Resolving(section, resolved), BootFire(section, baseline, resolved.value))
  }

  // The node after the first k events.
  function At(start: Node, events: seq<Event>, k: nat): Node
    requires k <= |events|
  {
    if k == 0 then start else Step(At(start, events, k - 1), events[k - 1]).0
  }

  function FireAt(start: Node, events: seq<Event>, k: nat): Option<PresetFire>
    requires k < |events|
  {
    Step(At(start, events, k), events[k]).1
  }

  predicate Fires(start: Node, events: seq<Event>, k: nat, id: string)
    requires k < |events|
  {
    FireAt(start, events, k).Some? && FireAt(start, events, k).value.daypartId == id
  }

  // An apply whose resolver starts from no baseline: none was there to carry, or
  // the rows it stood for were edited.
  predicate StartsFresh(start: Node, events: seq<Event>, k: nat)
    requires k < |events|
  {
    events[k].Apply? && !Carries(At(start, events, k), events[k].section)
  }

  // A resolve that found another daypart effective, or none.
  predicate ResolvesAway(e: Event, id: string) {
    e.resolved.Some? && EffectiveDaypartId(e.resolved) != id
  }

  lemma {:induction false} StillOn(start: Node, events: seq<Event>, i: nat, k: nat, id: string)
    requires i < k <= |events| && Fires(start, events, i, id)
    requires forall m :: i < m < k ==> !StartsFresh(start, events, m) && !ResolvesAway(events[m], id)
    ensures var n := At(start, events, k);
      n.Unresolved? || EffectiveDaypartId(n.prev) == id
  {
    if k > i + 1 {
      StillOn(start, events, i, k - 1, id);
      assert !StartsFresh(start, events, k - 1) && !ResolvesAway(events[k - 1], id);
    }
  }

  // Over any run, two firings of one daypart are separated: between them another
  // daypart (or none) was resolved effective, or by the second one an apply
  // started from no baseline.
  lemma TwoFiringsAreSeparated(start: Node, events: seq<Event>, i: nat, j: nat, id: string)
    requires i < j < |events| && Fires(start, events, i, id) && Fires(start, events, j, id)
    ensures exists k :: i < k <= j && (StartsFresh(start, events, k) || (k < j && ResolvesAway(events[k], id)))
  {
    if forall k :: i < k <= j ==> !StartsFresh(start, events, k) && (k < j ==> !ResolvesAway(events[k], id)) {
      StillOn(start, events, i, j, id);
      assert false;
    }
  }

  // The last resolve before event k that succeeded, with none but failed ticks
  // since.
  predicate LastResolve(events: seq<Event>, k: nat, j: nat)
    requires k <= |events|
  {
    && j < k && events[j].resolved.Some? && (events[j].Apply? ==> events[j].governed)
    && forall m :: j < m < k ==> events[m].Tick? && events[m].resolved.None?
  }

  lemma {:induction false} BaselineIsLastResolve(start: Node, events: seq<Event>, k: nat, j: nat)
    requires k <= |events| && LastResolve(events, k, j) && At(start, events, k).Resolving?
    ensures At(start, events, k).prev == events[j].resolved
  {
    if k > j + 1 { BaselineIsLastResolve(start, events, k - 1, j); }
  }

  // No edge is missed and none is made up: a tick fires a daypart's batch exactly
  // when it binds one and the last resolve found another daypart, or none.
  lemma TickFiresOnChange(start: Node, events: seq<Event>, k: nat, j: nat, id: string)
    requires k < |events| && events[k].Tick? && At(start, events, k).Resolving? && LastResolve(events, k, j)
    requires events[k].resolved.Some? && EffectiveDaypartId(events[k].resolved) == id != ""
    ensures Fires(start, events, k, id) <==>
      events[k].resolved.value.daypart.value.presetBatchId != "" && EffectiveDaypartId(events[j].resolved) != id
    ensures Fires(start, events, k, id) ==>
      FireAt(start, events, k).value.batchId == events[k].resolved.value.daypart.value.presetBatchId
  {
    BaselineIsLastResolve(start, events, k, j);
  }

  // ---- Bookkeeping never fires ----

  ghost predicate DistinctRows(section: Section) {
    forall i, j :: 0 <= i < j < |section.store.dayparts| ==>
      section.store.dayparts[i].id != section.store.dayparts[j].id
  }

  ghost predicate FromRows(s: EffectiveState, section: Section) {
    s.daypart.Some? ==> exists i :: 0 <= i < |section.store.dayparts| && section.store.dayparts[i] == s.daypart.value
  }

  // What resolution yields is a row of the generation it resolved.
  lemma ResolvedIsFromRows(section: Section, node: string, loc: Zone, t: int, s: EffectiveState)
    requires Resolved(section.store, node, loc, t, s)
    ensures FromRows(s, section)
  {
    if r :| Governs(section.store, node, loc, t, r) && s == StateOf(r.s, ClaimOf(section.store, loc, t, r.s)) {
      var held := HoldingDaypart(r.s.id, section.store.dayparts, Some(loc), t);
    }
  }

  // The rows an event's resolve reads are those of the generation in force.
  ghost predicate Honest(n: Node, e: Event) {
    match e
    case Tick(resolved) => n.Resolving? && resolved.Some? ==> FromRows(resolved.value, n.section)
    case Apply(section, _, resolved) => DistinctRows(section) && (resolved.Some? ==> FromRows(resolved.value, section))
  }

  // The baseline's daypart is a row of the generation in force, up to bookkeeping.
  ghost predicate Grounded(n: Node) {
    n.Resolving? ==>
      && DistinctRows(n.section)
      && (n.prev.Some? && n.prev.value.daypart.Some? ==>
            var row := FindDaypart(n.section.store.dayparts, n.prev.value.daypart.value.id);
            row == Some(n.prev.value.daypart.value))
  }

  lemma {:induction false} FindsTheRow(rows: seq<Daypart>, i: nat)
    requires i < |rows| && forall a, b :: 0 <= a < b < |rows| ==> rows[a].id != rows[b].id
    ensures FindDaypart(rows, rows[i].id) == Some(rows[i])
  {
    if i > 0 {
      assert rows[0].id != rows[i].id;
      FindsTheRow(rows[1..], i - 1);
    }
  }

  lemma GroundedStep(n: Node, e: Event)
    requires Grounded(n) && Honest(n, e)
    ensures Grounded(Step(n, e).0)
  {
    var after := Step(n, e).0;
    if after.Resolving? && after.prev.Some? && after.prev.value.daypart.Some? && e.resolved.Some? {
      var rows := after.section.store.dayparts;
      var i :| 0 <= i < |rows| && rows[i] == after.prev.value.daypart.value;
      FindsTheRow(rows, i);
    }
  }

  // Every resolve among the first k events read the rows then in force.
  ghost predicate HonestRun(start: Node, events: seq<Event>, k: nat)
    requires k <= |events|
  {
    k == 0 || (HonestRun(start, events, k - 1) && Honest(At(start, events, k - 1), events[k - 1]))
  }

  lemma {:induction false} GroundedRun(start: Node, events: seq<Event>, k: nat)
    requires k <= |events| && Grounded(start) && HonestRun(start, events, k)
    ensures Grounded(At(start, events, k))
  {
    if k > 0 {
      GroundedRun(start, events, k - 1);
      GroundedStep(At(start, events, k - 1), events[k - 1]);
    }
  }

  // The rows a fire of this daypart would assert are the same in both generations
  // but for bookkeeping and recorded outcomes. Anything else may have been edited.
  ghost predicate SameDesires(a: Section, b: Section, id: string) {
    var x, y := FindDaypart(a.store.dayparts, id), FindDaypart(b.store.dayparts, id);
    && x.Some? && y.Some? && Restamped(x.value, y.value)
    && (x.value.presetBatchId == "" ||
        var p, q := FindBatch(a.batches, x.value.presetBatchId), FindBatch(b.batches, x.value.presetBatchId);
        (p.None? && q.None?) || (p.Some? && q.Some? && Rerecorded(p.value, q.value)))
  }

  // At any point of any run, an apply over a node being resolved starts afresh
  // exactly when the daypart in effect, or the batch it binds, was edited.
  lemma StartsFreshIff(start: Node, events: seq<Event>, k: nat)
    requires k < |events| && Grounded(start) && HonestRun(start, events, k)
    requires At(start, events, k).Resolving? && At(start, events, k).prev.Some? && events[k].Apply?
    ensures var n := At(start, events, k);
      StartsFresh(start, events, k) <==>
        n.prev.value.daypart.Some? && !SameDesires(n.section, events[k].section, n.prev.value.daypart.value.id)
  {
    GroundedRun(start, events, k);
    var n := At(start, events, k);
    MayCarryIff(n.prev.value, CarriedBatch(n), events[k].section);
  }

  // So recording an outcome or re-stamping a row fires nothing, whatever else of
  // the section is edited with it, unless the clock moved the node to another
  // daypart.
  lemma BookkeepingNeverFires(start: Node, events: seq<Event>, k: nat)
    requires k < |events| && Grounded(start) && HonestRun(start, events, k)
    requires At(start, events, k).Resolving? && At(start, events, k).prev.Some? && events[k].Apply?
    requires var n := At(start, events, k);
      n.prev.value.daypart.Some? ==> SameDesires(n.section, events[k].section, n.prev.value.daypart.value.id)
    ensures FireAt(start, events, k).Some? ==> ResolvesAway(events[k], EffectiveDaypartId(At(start, events, k).prev))
  {
    StartsFreshIff(start, events, k);
  }

  // And an edit to the daypart in effect, or to the batch it binds, is delivered at
  // the apply that carries it: the batch then effective is dispatched, unless its
  // daypart declares it must never fire late.
  lemma EditIsDelivered(start: Node, events: seq<Event>, k: nat)
    requires k < |events| && Grounded(start) && HonestRun(start, events, k)
    requires At(start, events, k).Resolving? && At(start, events, k).prev.Some? && events[k].Apply?
    requires var n := At(start, events, k);
      n.prev.value.daypart.Some? && !SameDesires(n.section, events[k].section, n.prev.value.daypart.value.id)
    requires events[k].governed && EffectiveDaypartId(events[k].resolved) != ""
    ensures var d := events[k].resolved.value.daypart.value;
      FireAt(start, events, k) ==
        if d.presetBatchId == "" || MisfireFor(events[k].section, d.id) == "skip" then None
        else Some(PresetFire(d.id, d.presetBatchId))
  {
    StartsFreshIff(start, events, k);
  }
}
