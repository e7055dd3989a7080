// Applying a newly pulled desired-state generation to the serving relay, while
// resolvers of this and of cancelled generations go on writing.
module LiveApply {
  import opened Wrappers

  // ---- The player server ----

  const PREEMPT := "preempt"
  const SCHEDULED := "scheduled"

  datatype Program = Program(revision: string, priority: string, display: string, content: seq<string>)

  // What each screen is served, and the generation that wrote it.
  datatype Served = Served(programs: map<string, Program>, gens: map<string, int>)

  const NOTHING := Served(map[], map[])

  function GenOf(s: Served, screen: string): int {
    if screen in s.gens then s.gens[screen] else 0
  }

  predicate HoldsPreempt(s: Served, screen: string) {
    screen in s.programs && s.programs[screen].priority == PREEMPT
  }

  // A write is dropped when it names no screen, is of an older generation, or
  // would replace its own generation's takeover by ordinary resolution.
  predicate Dropped(s: Served, gen: int, screen: string, p: Program) {
    || screen == ""
    || gen < GenOf(s, screen)
    || (gen == GenOf(s, screen) && HoldsPreempt(s, screen) && p.priority != PREEMPT)
  }

  function Put(s: Served, gen: int, screen: string, p: Program): Served {
    if Dropped(s, gen, screen, p) then s
    else Served(s.programs[screen := p], s.gens[screen := gen])
  }

  // A grant a screen may redeem to pair; what else it says does not matter here.
  datatype Grant = Grant(id: string, rest: string)

  // By id, the last of an id counting.
  function GrantIndex(grants: seq<Grant>): map<string, Grant> {
    if grants == [] then map[]
    else GrantIndex(grants[..|grants| - 1])[grants[|grants| - 1].id := grants[|grants| - 1]]
  }

  // An empty id names no screen.
  ghost function RevokedOf(ids: seq<string>): set<string> {
    set id | id in ids && id != ""
  }

  // A channel token's session: the screen it is for, and whether it was dropped.
  datatype Session = Session(screenId: string, terminated: bool)

  // Every session of these screens is dropped, and none is revived.
  function DropSessions(sessions: map<string, Session>, screens: set<string>): map<string, Session> {
    map token | token in sessions ::
      sessions[token].(terminated := sessions[token].terminated || sessions[token].screenId in screens)
  }

  class PlayerServer {
    var programs: map<string, Program>
    var programGens: map<string, int>
    var revoked: set<string>
    var revokedGen: int
    var sessions: map<string, Session>
    var grants: map<string, Grant>
    var grantsGen: int

    constructor ()
      ensures View() == NOTHING && revoked == {} && sessions == map[] && grants == map[]
      ensures revokedGen == 0 && grantsGen == 0
    {
      programs, programGens, sessions, grants := map[], map[], map[], map[];
      revoked, revokedGen, grantsGen := {}, 0, 0;
    }

    ghost function View(): Served
      reads this
    {
      Served(programs, programGens)
    }

    // Replaces the revocation view, unless it is a newer generation's, and drops the
    // sessions it voids.
    method SetRevokedScreens(gen: int, ids: seq<string>)
      modifies this`revoked, this`revokedGen, this`sessions
      ensures gen < old(revokedGen) ==>
        revoked == old(revoked) && revokedGen == old(revokedGen) && sessions == old(sessions)
      ensures gen >= old(revokedGen) ==>
        revoked == RevokedOf(ids) && revokedGen == gen && sessions == DropSessions(old(sessions), revoked)
    {
      if gen < revokedGen { return; }
      revokedGen := gen;
      var screens: set<string> := {};
      for i := 0 to |ids|
        invariant screens == RevokedOf(ids[..i])
      {
        if ids[i] == "" { continue; }
        screens := screens + {ids[i]};
      }
      assert ids[..|ids|] == ids;
      revoked := screens;
      sessions := DropSessions(sessions, screens);
    }

    method SetPairingGrants(gen: int, list: seq<Grant>)
      modifies this`grants, this`grantsGen
      ensures gen < old(grantsGen) ==> grants == old(grants) && grantsGen == old(grantsGen)
      ensures gen >= old(grantsGen) ==> grants == GrantIndex(list) && grantsGen == gen
    {
      if gen < grantsGen { return; }
      grantsGen := gen;
      var index: map<string, Grant> := map[];
      for i := 0 to |list|
        invariant index == GrantIndex(list[..i])
      {
        assert list[..i + 1][..i] == list[..i];
        index := index[list[i].id := list[i]];
      }
      assert list[..|list|] == list;
      grants := index;
    }

    method SetProgram(gen: int, screen: string, p: Program)
      modifies this`programs, this`programGens
      ensures View() == Put(old(View()), gen, screen, p)
    {
      if screen == "" { return; }
      var current := if screen in programGens then programGens[screen] else 0;
      if gen < current { return; }
      var held := screen in programs && programs[screen].priority == PREEMPT;
      if gen == current && held && p.priority != PREEMPT { return; }
      programGens := programGens[screen := gen];
      programs := programs[screen := p];
    }
  }

  // ---- The authored baseline ----

  datatype Entry = Entry(screenId: string, program: Program, pinned: bool)

  function Baseline(s: Served, gen: int, entries: seq<Entry>): Served {
    if entries == [] then s
    else
      var e := entries[|entries| - 1];
      Put(Baseline(s, gen, entries[..|entries| - 1]), gen, e.screenId, e.program)
  }

  function Named(entries: seq<Entry>): nat {
    if entries == [] then 0
    else Named(entries[..|entries| - 1]) + if entries[|entries| - 1].screenId != "" then 1 else 0
  }

  method ServeAppAuthoredPrograms(srv: PlayerServer, gen: int, entries: seq<Entry>) returns (installed: nat)
    modifies srv`programs, srv`programGens
    ensures srv.View() == Baseline(old(srv.View()), gen, entries)
    ensures installed == Named(entries)
  {
    installed := 0;
    for i := 0 to |entries|
      invariant srv.View() == Baseline(old(srv.View()), gen, entries[..i])
      invariant installed == Named(entries[..i])
    {
      assert entries[..i + 1][..i] == entries[..i];
      if entries[i].screenId == "" { continue; }
      srv.SetProgram(gen, entries[i].screenId, entries[i].program);
      installed := installed + 1;
    }
    assert entries[..|entries|] == entries;
  }

  // The entry a screen ends up with when a generation's entries are installed.
  function Final(entries: seq<Entry>, screen: string): Option<Program> {
    if entries == [] then None
    else
      var e, before := entries[|entries| - 1], Final(entries[..|entries| - 1], screen);
      if e.screenId != screen then before
      else if before.Some? && before.value.priority == PREEMPT && e.program.priority != PREEMPT then before
      else Some(e.program)
  }

  // The screen's last takeover if it has one, else its last entry.
  lemma {:induction false} FinalIsLastTakeoverElseLast(entries: seq<Entry>, screen: string)
    ensures Final(entries, screen).None? <==> forall i :: 0 <= i < |entries| ==> entries[i].screenId != screen
    ensures Final(entries, screen).Some? ==> exists i :: 0 <= i < |entries| && FinalAt(entries, screen, i)
  {
    if entries != [] {
      var n := |entries| - 1;
      FinalIsLastTakeoverElseLast(entries[..n], screen);
      if entries[n].screenId == screen && Final(entries, screen) == Some(entries[n].program) {
        if Final(entries[..n], screen).Some? {
          var i :| 0 <= i < n && FinalAt(entries[..n], screen, i);
        }
        assert FinalAt(entries, screen, n);
      } else if Final(entries, screen).Some? {
        var i :| 0 <= i < n && FinalAt(entries[..n], screen, i);
        assert FinalAt(entries, screen, i);
      }
    }
  }

  ghost predicate FinalAt(entries: seq<Entry>, screen: string, i: nat)
    requires i < |entries|
  {
    && entries[i].screenId == screen && Final(entries, screen) == Some(entries[i].program)
    && forall k :: 0 <= k < |entries| && entries[k].screenId == screen ==>
         if entries[i].program.priority == PREEMPT then k > i ==> entries[k].program.priority != PREEMPT
         else k <= i && entries[k].program.priority != PREEMPT
  }

  // ---- Attributing the schedule's resolution to a screen ----

  // The one screen the entries name.
  ghost predicate OnlyScreen(entries: seq<Entry>, screen: string) {
    && screen != ""
    && (exists i :: 0 <= i < |entries| && entries[i].screenId == screen)
    && forall i :: 0 <= i < |entries| && entries[i].screenId != "" ==> entries[i].screenId == screen
  }

  ghost predicate Pinned(entries: seq<Entry>, screen: string) {
    exists i :: 0 <= i < |entries| && entries[i].screenId == screen && entries[i].pinned
  }

  // The screen a generation's resolvers may write: the only one named, when a
  // single node is governed and nothing pins that screen.
  ghost predicate Attributed(governed: seq<string>, entries: seq<Entry>, screen: string) {
    |governed| == 1 && OnlyScreen(entries, screen) && !Pinned(entries, screen)
  }

  method SoleServedScreenId(governed: seq<string>, entries: seq<Entry>) returns (screen: string)
    ensures screen != "" ==> Attributed(governed, entries, screen)
    ensures screen == "" ==> forall s :: !Attributed(governed, entries, s)
  {
    if |governed| != 1 { return ""; }
    screen := "";
    var pinned: set<string> := {};
    for i := 0 to |entries|
      invariant forall k :: 0 <= k < i && entries[k].screenId != "" ==> entries[k].screenId == screen
      invariant screen != "" ==> exists k :: 0 <= k < i && entries[k].screenId == screen
      invariant forall k :: 0 <= k < i && entries[k].screenId != "" && entries[k].pinned ==>
        entries[k].screenId in pinned
      invariant forall s :: s in pinned ==> s != "" && Pinned(entries, s)
    {
      if entries[i].screenId == "" { continue; }
      if entries[i].pinned {
        pinned := pinned + {entries[i].screenId};
        assert Pinned(entries, entries[i].screenId);
      }
      if entries[i].screenId == screen { continue; }
      if screen != "" { return ""; }
      screen := entries[i].screenId;
    }
    if screen in pinned { return ""; }
  }

  // ---- A live pull, uninterrupted ----

  // A generation as applied. governed holds the scope nodes a schedule governs,
  // and projected what each one's first resolve projects, None when it fails.
  // The inventory and the edge rules are carried as they stand.
  datatype Applied = Applied(
    gen: nat, hash: string, entries: seq<Entry>, governed: seq<string>, projected: seq<Option<Program>>,
    revoked: seq<string>, grants: seq<Grant>, inventory: string, rules: string)
  {
    predicate Valid() {
      && |projected| == |governed|
      && forall i :: 0 <= i < |projected| && projected[i].Some? ==> projected[i].value.priority == SCHEDULED
    }
  }

  function Writes(s: Served, gen: int, screen: string, projected: seq<Option<Program>>): Served {
    if projected == [] then s
    else
      var last, before := projected[|projected| - 1], Writes(s, gen, screen, projected[..|projected| - 1]);
      if last.None? then before else Put(before, gen, screen, last.value)
  }

  class RePuller {
    const srv: PlayerServer
    var lastGen: int
    var lastHash: string
    // The adopted devices and the edge rules, each with the generation it is from.
    var inventory: string
    var inventoryGen: int
    var rules: string
    var rulesGen: int

    // Nothing in force is of a later generation than the last.
    ghost predicate Valid()
      reads this, srv
    {
      srv.revokedGen <= lastGen && srv.grantsGen <= lastGen && inventoryGen <= lastGen && rulesGen <= lastGen
    }

    // Everything but the programs is this generation's.
    ghost predicate InForce(a: Applied)
      reads this, srv
    {
      && srv.revoked == RevokedOf(a.revoked) && srv.grants == GrantIndex(a.grants)
      && inventory == a.inventory && rules == a.rules
    }

    constructor (srv: PlayerServer, gen: int, hash: string, inventory: string, rules: string)
      requires srv.revokedGen <= gen && srv.grantsGen <= gen
      ensures Valid()
      ensures this.srv == srv && lastGen == gen && lastHash == hash
      ensures this.inventory == inventory && this.rules == rules
    {
      this.srv, lastGen, lastHash := srv, gen, hash;
      this.inventory, inventoryGen, this.rules, rulesGen := inventory, gen, rules, gen;
    }

    // Revocation before any program, and the baseline before resolution, as at boot.
    method ApplyPrograms(a: Applied, screen: string)
      requires a.Valid()
      modifies srv`programs, srv`programGens, srv`revoked, srv`revokedGen, srv`sessions
      ensures srv.View() == Writes(Baseline(old(srv.View()), a.gen, a.entries), a.gen, screen, a.projected)
      ensures a.gen >= old(srv.revokedGen) ==>
        && srv.revoked == RevokedOf(a.revoked) && srv.revokedGen == a.gen
        && srv.sessions == DropSessions(old(srv.sessions), srv.revoked)
    {
      srv.SetRevokedScreens(a.gen, a.revoked);
      var installed := ServeAppAuthoredPrograms(srv, a.gen, a.entries);
      ResolveAndServe(a, screen);
    }

    // Each governed node's first resolve; one that fails writes nothing.
    method ResolveAndServe(a: Applied, screen: string)
      requires a.Valid()
      modifies srv`programs, srv`programGens
      ensures srv.View() == Writes(old(srv.View()), a.gen, screen, a.projected)
    {
      for i := 0 to |a.governed|
        invariant srv.View() == Writes(old(srv.View()), a.gen, screen, a.projected[..i])
      {
        assert a.projected[..i + 1][..i] == a.projected[..i];
        if a.projected[i].None? { continue; }
        srv.SetProgram(a.gen, screen, a.projected[i].value);
      }
      assert a.projected[..|a.governed|] == a.projected;
    }

    method ApplyInventory(gen: int, devices: string)
      modifies this`inventory, this`inventoryGen
      ensures gen <= old(inventoryGen) && old(inventoryGen) != 0 ==>
        inventory == old(inventory) && inventoryGen == old(inventoryGen)
      ensures gen > old(inventoryGen) || old(inventoryGen) == 0 ==> inventory == devices && inventoryGen == gen
    {
      if gen <= inventoryGen && inventoryGen != 0 { return; }
      inventory, inventoryGen := devices, gen;
    }

    method ApplyEdgeRules(gen: int, list: string)
      modifies this`rules, this`rulesGen
      ensures gen <= old(rulesGen) ==> rules == old(rules) && rulesGen == old(rulesGen)
      ensures gen > old(rulesGen) ==> rules == list && rulesGen == gen
    {
      if gen <= rulesGen { return; }
      rules, rulesGen := list, gen;
    }

    // pulled is None when the pull failed. What is applied is applied whole: every
    // view is the new generation's afterwards, or none has changed.
    method Tick(pulled: Option<Applied>) returns (applied: bool)
      requires Valid() && (pulled.Some? ==> pulled.value.Valid())
      modifies this, srv
      ensures Valid()
      ensures applied <==> pulled.Some? && pulled.value.gen > old(lastGen) && !SameHash(old(lastHash), pulled.value)
      ensures !applied ==> unchanged(srv) && lastHash == old(lastHash)
      ensures !applied ==> inventory == old(inventory) && rules == old(rules)
      ensures !applied ==>
        lastGen == if pulled.Some? && pulled.value.gen > old(lastGen) then pulled.value.gen else old(lastGen)
      ensures applied ==> lastGen == pulled.value.gen && lastHash == pulled.value.hash && InForce(pulled.value)
      ensures applied ==> srv.sessions == DropSessions(old(srv.sessions), srv.revoked)
      ensures applied ==> exists screen ::
        && (if screen == "" then forall s :: !Attributed(pulled.value.governed, pulled.value.entries, s)
            else Attributed(pulled.value.governed, pulled.value.entries, screen))
        && srv.View() == Writes(Baseline(old(srv.View()), pulled.value.gen, pulled.value.entries),
             pulled.value.gen, screen, pulled.value.projected)
    {
      if pulled.None? { return false; }
      var a := pulled.value;
      if a.gen <= lastGen { return false; }
      if a.hash != "" && a.hash == lastHash {
        lastGen := a.gen;
        return false;
      }
      var screen := SoleServedScreenId(a.governed, a.entries);
      ApplyPrograms(a, screen);
      srv.SetPairingGrants(a.gen, a.grants);
      ApplyInventory(a.gen, a.inventory);
      ApplyEdgeRules(a.gen, a.rules);
      lastGen, lastHash := a.gen, a.hash;
      return true;
    }
  }

  predicate SameHash(last: string, a: Applied) {
    a.hash != "" && a.hash == last
  }
}
