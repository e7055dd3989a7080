// Screen program overrides with an expiry, and the next instant at which one of
// them stops applying with nobody writing anything.
module Overrides {
  import opened Wrappers

  datatype ScreenOverride = ScreenOverride(mode: string, castId: string, message: string, expiresAt: int, setAt: int)

  // An override applies when it states no expiry or expires strictly later.
  predicate Applies(o: Option<ScreenOverride>, t: nat) {
    o.Some? && (o.value.expiresAt == 0 || o.value.expiresAt > t)
  }

  datatype Screen = Screen(id: string, override: Option<ScreenOverride>)

  // Row i expires strictly after t.
  predicate Pending(screens: seq<Screen>, t: nat, i: nat)
    requires i < |screens|
  {
    screens[i].override.Some? && screens[i].override.value.expiresAt > t
  }

  // The earliest pending expiry, or zero when none is pending.
  ghost predicate IsNextExpiry(screens: seq<Screen>, t: nat, next: int) {
    && (next == 0 ==> forall i :: 0 <= i < |screens| ==> !Pending(screens, t, i))
    && (next != 0 ==>
          && next > t
          && (exists i :: 0 <= i < |screens| && Pending(screens, t, i) && screens[i].override.value.expiresAt == next)
          && forall i :: 0 <= i < |screens| && Pending(screens, t, i) ==> next <= screens[i].override.value.expiresAt)
  }

  method NextOverrideExpiry(screens: seq<Screen>, now: nat) returns (next: int)
    ensures IsNextExpiry(screens, now, next)
  {
    next := 0;
    for i := 0 to |screens|
      invariant next == 0 ==> forall k :: 0 <= k < i ==> !Pending(screens, now, k)
      invariant next != 0 ==> next > now
      invariant next != 0 ==>
        exists k :: 0 <= k < i && Pending(screens, now, k) && screens[k].override.value.expiresAt == next
      invariant next != 0 ==> forall k :: 0 <= k < i && Pending(screens, now, k) ==>
        next <= screens[k].override.value.expiresAt
    {
      var o := screens[i].override;
      if o.None? || o.value.expiresAt <= now { continue; }
      if next == 0 || o.value.expiresAt < next {
        next := o.value.expiresAt;
        assert Pending(screens, now, i);
      }
    }
  }
}
