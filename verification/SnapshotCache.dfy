// The feeder's one-snapshot cache: how long a derived snapshot may be served
// again, and what is true of every snapshot that is.
module SnapshotCache {
  import opened Wrappers
  import opened Overrides

  const SNAPSHOT_TTL_MS := 24 * 60 * 60 * 1000
  const REMINT_INTERVAL_MS := SNAPSHOT_TTL_MS / 2

  datatype DesiredState = DesiredState(gen: int, screens: seq<Screen>)

  // A snapshot is derived from one read of the desired state at one instant.
  datatype Snapshot = Snapshot(from: DesiredState, builtAt: nat)

  // The earlier of the next expiry and the re-mint deadline.
  ghost predicate IsWindowEnd(screens: seq<Screen>, builtAt: nat, until: int) {
    exists next :: IsNextExpiry(screens, builtAt, next) &&
      until == if next != 0 && next < builtAt + REMINT_INTERVAL_MS then next else builtAt + REMINT_INTERVAL_MS
  }

  method CacheWindowEnd(screens: seq<Screen>, now: nat) returns (until: int)
    ensures IsWindowEnd(screens, now, until)
  {
    until := now + REMINT_INTERVAL_MS;
    var next := NextOverrideExpiry(screens, now);
    if next != 0 && next < until { return next; }
  }

  // What still holds at t of a snapshot built earlier: every override projects as
  // it did, and every URL in it has at least half its life left.
  ghost predicate StillRight(s: Snapshot, t: nat) {
    && (forall i :: 0 <= i < |s.from.screens| ==>
          (Applies(s.from.screens[i].override, t) <==> Applies(s.from.screens[i].override, s.builtAt)))
    && t - s.builtAt < REMINT_INTERVAL_MS
  }

  // From the build on, the window is exactly the time the snapshot stays right: up
  // to its end and never again after.
  lemma WindowIsExact(s: Snapshot, until: int, t: nat)
    requires IsWindowEnd(s.from.screens, s.builtAt, until) && s.builtAt <= t
    ensures s.builtAt < until
    ensures StillRight(s, t) <==> t < until
  {
    var screens := s.from.screens;
    var next :| IsNextExpiry(screens, s.builtAt, next) &&
      until == if next != 0 && next < s.builtAt + REMINT_INTERVAL_MS then next else s.builtAt + REMINT_INTERVAL_MS;
    forall i | 0 <= i < |screens|
      ensures t < until ==> (Applies(screens[i].override, t) <==> Applies(screens[i].override, s.builtAt))
    {
      if Pending(screens, s.builtAt, i) { assert next <= screens[i].override.value.expiresAt; }
    }
    if until <= t && t - s.builtAt < REMINT_INTERVAL_MS {
      var i :| 0 <= i < |screens| && Pending(screens, s.builtAt, i) && screens[i].override.value.expiresAt == next;
      assert Applies(screens[i].override, s.builtAt) && !Applies(screens[i].override, t);
    }
  }

  // Row i's override ran out after t, and no later than the build.
  predicate RanOut(s: Snapshot, t: nat, i: nat)
    requires i < |s.from.screens|
  {
    var o := s.from.screens[i].override;
    o.Some? && t < o.value.expiresAt <= s.builtAt
  }

  ghost predicate RanOutBetween(s: Snapshot, t: nat) {
    exists i :: 0 <= i < |s.from.screens| && RanOut(s, t, i)
  }

  // A reader may look at its clock before another reader builds, and only then get
  // hold of what that one built. Before the build, a snapshot is right exactly when
  // no override ran out in between.
  lemma BeforeTheBuild(s: Snapshot, t: nat)
    requires t < s.builtAt
    ensures StillRight(s, t) <==> !RanOutBetween(s, t)
  {
    forall i | 0 <= i < |s.from.screens|
      ensures RanOut(s, t, i) <==>
        !(Applies(s.from.screens[i].override, t) <==> Applies(s.from.screens[i].override, s.builtAt))
    {
    }
  }

  class DesiredStateSource {
    var cached: Snapshot
    var cachedGen: int
    var cachedUntil: int
    var haveCache: bool

    ghost predicate Valid()
      reads this
    {
      haveCache ==> cachedGen == cached.from.gen && IsWindowEnd(cached.from.screens, cached.builtAt, cachedUntil)
    }

    constructor (none: Snapshot)
      ensures Valid() && !haveCache
    {
      cached, cachedGen, cachedUntil, haveCache := none, 0, 0, false;
    }

    // The cached snapshot answers: same generation, and its window still open.
    ghost predicate Hit(gen: int, now: nat)
      reads this
    {
      haveCache && cached.from.gen == gen && now < cachedUntil
    }

    // gen is read first, and the desired state only if it is needed, by which
    // time it may be newer; built tells whether deriving a snapshot succeeds.
    method Current(gen: Option<int>, now: nat, read: Option<DesiredState>, built: bool) returns (r: Option<Snapshot>)
      requires Valid()
      modifies this
      ensures Valid()
      ensures r.Some? <==> gen.Some? && (old(Hit(gen.value, now)) || (read.Some? && built))
      ensures r.Some? && old(Hit(gen.value, now)) ==> r.value == old(cached) && r.value.from.gen == gen.value
      ensures r.Some? && !old(Hit(gen.value, now)) ==> r.value == Snapshot(read.value, now) == cached && haveCache
      ensures r.None? || old(Hit(gen.value, now)) ==>
        haveCache == old(haveCache) && cached == old(cached) && cachedUntil == old(cachedUntil)
      ensures r.Some? ==> (StillRight(r.value, now) <==> r.value.builtAt <= now || !RanOutBetween(r.value, now))
    {
      if gen.None? { return None; }
      if haveCache { WindowIsExact(cached, cachedUntil, cached.builtAt); }
      if haveCache && cachedGen == gen.value && (cachedUntil == 0 || now < cachedUntil) {
        if cached.builtAt <= now { WindowIsExact(cached, cachedUntil, now); } else { BeforeTheBuild(cached, now); }
        return Some(cached);
      }
      if read.None? { return None; }
      if !built { return None; }
      var snap := Snapshot(read.value, now);
      var until := CacheWindowEnd(read.value.screens, now);
      cached, cachedGen, cachedUntil, haveCache := snap, read.value.gen, until, true;
      WindowIsExact(snap, until, now);
      return Some(snap);
    }
  }
}
