// Publishing that a screen override has lapsed: one generation advance per lapse,
// though no row changes when an override runs out.
module LapseLoop {
  import opened Wrappers
  import opened Bytes
  import opened Overrides

  const POLL_NS := 60_000_000_000
  const NS_PER_MS := 1_000_000
  // Under three centuries: two readings of one clock in a row are closer.
  const LONGEST_GAP_MS := 9_000_000_000_000

  // ---- One pass ----

  predicate HasLapsed(s: Screen, now: nat) {
    s.override.Some? && 0 < s.override.value.expiresAt <= now
  }

  // Screen to expiry, for every override that has lapsed.
  function Lapsed(screens: seq<Screen>, now: nat): map<string, int> {
    if screens == [] then map[]
    else
      var s, before := screens[|screens| - 1], Lapsed(screens[..|screens| - 1], now);
      if HasLapsed(s, now) then before[s.id := s.override.value.expiresAt] else before
  }

  method LapsedOverrides(screens: seq<Screen>, now: nat) returns (out: map<string, int>)
    ensures out == Lapsed(screens, now)
  {
    out := map[];
    for i := 0 to |screens|
      invariant out == Lapsed(screens[..i], now)
    {
      assert screens[..i + 1][..i] == screens[..i];
      var o := screens[i].override;
      if o.None? || o.value.expiresAt <= 0 || o.value.expiresAt > now { continue; }
      out := out[screens[i].id := o.value.expiresAt];
    }
    assert screens[..|screens|] == screens;
  }

  // A pair the fleet has been told of.
  predicate Knows(published: map<string, int>, id: string, expiry: int) {
    id in published && published[id] == expiry
  }

  ghost predicate HasNews(lapsed: map<string, int>, published: map<string, int>) {
    exists id :: id in lapsed && !Knows(published, id, lapsed[id])
  }

  lemma {:induction false} LapsedArePositive(screens: seq<Screen>, now: nat)
    ensures forall id :: id in Lapsed(screens, now) ==> Lapsed(screens, now)[id] > 0
  {
    if screens != [] { LapsedArePositive(screens[..|screens| - 1], now); }
  }

  // An unpublished screen reads as zero, which no lapsed expiry is.
  method HasUnpublishedLapse(lapsed: map<string, int>, published: map<string, int>) returns (r: bool)
    requires forall id :: id in lapsed ==> lapsed[id] > 0
    ensures r <==> HasNews(lapsed, published)
  {
    var left := lapsed.Keys;
    while left != {}
      invariant left <= lapsed.Keys
      invariant forall id :: id in lapsed && id !in left ==> Knows(published, id, lapsed[id])
      decreases left
    {
      var id :| id in left;
      if (if id in published then published[id] else 0) != lapsed[id] { return true; }
      left := left - {id};
    }
    return false;
  }

  // Never in the past, and never past the poll.
  function Clamp(ns: int): int {
    if ns >= POLL_NS then POLL_NS else if ns > 0 then ns else 0
  }

  // How long the loop waits for a pending expiry: until 1 ms after it, in
  // nanoseconds of 64 bits.
  function WaitFor(next: int, measured: int): int {
    Clamp(Wrap64((next - measured + 1) * NS_PER_MS))
  }

  lemma OneNextExpiry(screens: seq<Screen>, t: nat, a: int, b: int)
    requires IsNextExpiry(screens, t, a) && IsNextExpiry(screens, t, b)
    ensures a == b
  {
  }

  class OverrideExpiryLoop {
    var published: map<string, int>

    constructor ()
      ensures published == map[]
    {
      published := map[];
    }

    // One round: read is None when the store could not be read, advanced whether
    // an advance, if one is asked for, succeeds, and the clock is read again when
    // the next wait is armed and when it is measured.
    method Pass(read: Option<seq<Screen>>, now: nat, armed: nat, measured: nat, advances: bool)
      returns (asked: bool, wait: int)
      modifies this
      ensures published == if read.None? then old(published) else Lapsed(read.value, now)
      ensures asked <==> read.Some? && HasNews(Lapsed(read.value, now), old(published))
      ensures 0 <= wait <= POLL_NS && (read.None? ==> wait == POLL_NS)
      ensures read.Some? ==> forall next :: IsNextExpiry(read.value, armed, next) ==>
        wait == if next == 0 then POLL_NS else WaitFor(next, measured)
      ensures read.Some? && measured - armed < LONGEST_GAP_MS ==>
        forall i :: 0 <= i < |read.value| && Pending(read.value, armed, i) ==>
          wait == 0 || measured * NS_PER_MS + wait <= (read.value[i].override.value.expiresAt + 1) * NS_PER_MS
    {
      asked := false;
      if read.Some? {
        var lapsed := LapsedOverrides(read.value, now);
        LapsedArePositive(read.value, now);
        asked := HasUnpublishedLapse(lapsed, published);
        published := lapsed;
      }
      wait := POLL_NS;
      if read.Some? {
        var next := NextOverrideExpiry(read.value, armed);
        forall other | IsNextExpiry(read.value, armed, other) ensures other == next {
          OneNextExpiry(read.value, armed, next, other);
        }
        if next > 0 {
          var d := Wrap64((next - measured + 1) * NS_PER_MS);
          if d < wait { wait := if d > 0 then d else 0; }
          if measured - armed < LONGEST_GAP_MS { WaitIsSoonEnough(next, measured); }
        }
      }
    }
  }

  // Even where the nanosecond product of a far expiry overflows, the wait is not
  // too long.
  lemma WaitIsSoonEnough(next: int, measured: nat)
    requires measured - next < LONGEST_GAP_MS
    ensures WaitFor(next, measured) == 0 || measured * NS_PER_MS + WaitFor(next, measured) <= (next + 1) * NS_PER_MS
  {
    var x := (next - measured + 1) * NS_PER_MS;
    assert x == (next + 1) * NS_PER_MS - measured * NS_PER_MS;
    if x < TWO_63 { assert Wrap64(x) == x; }
  }

  // But it may be too short. The loop does not wait at all for an expiry still to
  // come exactly when the product lands in the upper half of its 64 bits; and it
  // waits as long as it should exactly when the product fits, or lands where it
  // reads as more than a poll.
  lemma WaitsNotAtAllIff(next: int, measured: int)
    requires next >= measured
    ensures var ns := (next - measured + 1) * NS_PER_MS;
      && (WaitFor(next, measured) == 0 <==> ns % TWO_64 == 0 || ns % TWO_64 >= TWO_63)
      && (WaitFor(next, measured) == Clamp(ns) <==> ns < TWO_63 || POLL_NS <= ns % TWO_64 < TWO_63)
  {
    var ns := (next - measured + 1) * NS_PER_MS;
    WrapIsTheHalf(ns);
    if ns < TWO_64 { assert ns % TWO_64 == ns; }
  }

  lemma WrapIsTheHalf(n: int)
    ensures Wrap64(n) == if n % TWO_64 >= TWO_63 then n % TWO_64 - TWO_64 else n % TWO_64
  {
    var q, r := n / TWO_64, n % TWO_64;
    assert n + TWO_63 == q * TWO_64 + (r + TWO_63);
    if r >= TWO_63 {
      assert n + TWO_63 == (q + 1) * TWO_64 + (r - TWO_63);
      DivisionIsUnique(n + TWO_63, q + 1, r - TWO_63);
    } else {
      DivisionIsUnique(n + TWO_63, q, r + TWO_63);
    }
  }

  lemma DivisionIsUnique(n: int, q: int, r: int)
    requires n == q * TWO_64 + r && 0 <= r < TWO_64
    ensures n % TWO_64 == r
  {
  }

  // An expiry that far off is one the store accepts. For the whole stretch of time
  // in which it is between 2^63 and 2^64 ns away the loop re-reads the store
  // without pause; no nearer expiry does that.
  const FIRST_SPIN_MS := 9_223_372_036_854
  const LAST_SPIN_MS := 18_446_744_073_708

  lemma FarExpirySpins(next: int, measured: int)
    ensures FIRST_SPIN_MS <= next - measured <= LAST_SPIN_MS ==> WaitFor(next, measured) == 0
    ensures 0 <= next - measured < FIRST_SPIN_MS ==>
      WaitFor(next, measured) == Clamp((next - measured + 1) * NS_PER_MS) > 0
  {
    var ns := (next - measured + 1) * NS_PER_MS;
    if 0 <= next - measured <= LAST_SPIN_MS { assert ns % TWO_64 == ns; }
    WrapIsTheHalf(ns);
  }

  // ---- Runs ----

  // A pass of the loop as seen from outside: what it read and when.
  datatype Round = Round(read: Option<seq<Screen>>, now: nat, advances: bool)

  // What has been announced before round k.
  function Published(rounds: seq<Round>, k: nat): map<string, int>
    requires k <= |rounds|
  {
    if k == 0 then map[]
    else if rounds[k - 1].read.None? then Published(rounds, k - 1)
    else Lapsed(rounds[k - 1].read.value, rounds[k - 1].now)
  }

  ghost predicate Asks(rounds: seq<Round>, k: nat)
    requires k < |rounds|
  {
    rounds[k].read.Some? && HasNews(Lapsed(rounds[k].read.value, rounds[k].now), Published(rounds, k))
  }

  // Round k asks on account of this pair.
  predicate Announces(rounds: seq<Round>, k: nat, id: string, expiry: int)
    requires k < |rounds|
  {
    && rounds[k].read.Some? && Knows(Lapsed(rounds[k].read.value, rounds[k].now), id, expiry)
    && !Knows(Published(rounds, k), id, expiry)
  }

  lemma AsksForAPair(rounds: seq<Round>, k: nat)
    requires k < |rounds|
    ensures Asks(rounds, k) <==> exists id, expiry :: Announces(rounds, k, id, expiry)
  {
    if Asks(rounds, k) {
      var lapsed := Lapsed(rounds[k].read.value, rounds[k].now);
      var id :| id in lapsed && !Knows(Published(rounds, k), id, lapsed[id]);
      assert Announces(rounds, k, id, lapsed[id]);
    }
  }

  // The last successful read before round k, if any.
  predicate LastRead(rounds: seq<Round>, k: nat, j: nat)
    requires k <= |rounds|
  {
    j < k && rounds[j].read.Some? && forall m :: j < m < k ==> rounds[m].read.None?
  }

  // The pair was already lapsed at that read.
  ghost predicate WasLapsed(rounds: seq<Round>, k: nat, id: string, expiry: int)
    requires k <= |rounds|
  {
    exists j: nat :: LastRead(rounds, k, j) && Knows(Lapsed(rounds[j].read.value, rounds[j].now), id, expiry)
  }

  // A round asks for an advance exactly when some pair is lapsed that was not at
  // the previous successful round.
  lemma {:induction false} AskedIff(rounds: seq<Round>, k: nat)
    requires k < |rounds|
    ensures Asks(rounds, k) <==>
      rounds[k].read.Some? && exists id, expiry ::
        Knows(Lapsed(rounds[k].read.value, rounds[k].now), id, expiry) && !WasLapsed(rounds, k, id, expiry)
  {
    var last := PublishedIsLastRead(rounds, k);
    forall id, expiry ensures Knows(Published(rounds, k), id, expiry) <==> WasLapsed(rounds, k, id, expiry) {
      if j: nat :| LastRead(rounds, k, j) && Knows(Lapsed(rounds[j].read.value, rounds[j].now), id, expiry) {
        OneLastRead(rounds, k, j, last.value);
      }
    }
    AsksForAPair(rounds, k);
    if Asks(rounds, k) {
      var id, expiry :| Announces(rounds, k, id, expiry);
      assert !WasLapsed(rounds, k, id, expiry);
    }
    if rounds[k].read.Some? {
      if id, expiry :|
        Knows(Lapsed(rounds[k].read.value, rounds[k].now), id, expiry) && !WasLapsed(rounds, k, id, expiry)
      {
        assert Announces(rounds, k, id, expiry);
      }
    }
  }

  lemma OneLastRead(rounds: seq<Round>, k: nat, i: nat, j: nat)
    requires k <= |rounds| && LastRead(rounds, k, i) && LastRead(rounds, k, j)
    ensures i == j
  {
  }

  lemma {:induction false} PublishedIsLastRead(rounds: seq<Round>, k: nat) returns (last: Option<nat>)
    requires k <= |rounds|
    ensures last.None? ==> Published(rounds, k) == map[] && forall j :: !LastRead(rounds, k, j)
    ensures last.Some? ==> LastRead(rounds, k, last.value)
    ensures last.Some? ==> Published(rounds, k) == Lapsed(rounds[last.value].read.value, rounds[last.value].now)
  {
    if k == 0 {
      last := None;
    } else if rounds[k - 1].read.Some? {
      last := Some(k - 1);
    } else {
      last := PublishedIsLastRead(rounds, k - 1);
      forall j | LastRead(rounds, k, j) ensures LastRead(rounds, k - 1, j) {
        assert j != k - 1;
      }
    }
  }

  // ---- Exactly once ----

  // The screen has one row, whose override expires then.
  ghost predicate OnItsRow(screens: seq<Screen>, id: string, expiry: int) {
    exists i :: 0 <= i < |screens| && TheRow(screens, id, i) && screens[i].override.Some? &&
      screens[i].override.value.expiresAt == expiry
  }

  predicate TheRow(screens: seq<Screen>, id: string, i: nat)
    requires i < |screens|
  {
    screens[i].id == id && forall k :: 0 <= k < |screens| && screens[k].id == id ==> k == i
  }

  lemma {:induction false} LapsedByRow(screens: seq<Screen>, id: string, now: nat)
    ensures (forall k :: 0 <= k < |screens| ==> screens[k].id != id) ==> id !in Lapsed(screens, now)
    ensures forall i :: 0 <= i < |screens| && TheRow(screens, id, i) ==>
      if HasLapsed(screens[i], now) then Knows(Lapsed(screens, now), id, screens[i].override.value.expiresAt)
      else id !in Lapsed(screens, now)
  {
    if screens != [] {
      var n := |screens| - 1;
      LapsedByRow(screens[..n], id, now);
      forall i | 0 <= i < |screens| && TheRow(screens, id, i)
        ensures if HasLapsed(screens[i], now) then Knows(Lapsed(screens, now), id, screens[i].override.value.expiresAt)
                else id !in Lapsed(screens, now)
      {
        if i < n {
          assert screens[n].id != id;
          assert TheRow(screens[..n], id, i);
        } else {
          forall k | 0 <= k < n ensures screens[..n][k].id != id { assert screens[k].id != id; }
        }
      }
    }
  }

  // From round i to round j the pair stands on its row, the clock does not go
  // back, and before round i it had not been announced.
  ghost predicate Stands(rounds: seq<Round>, i: nat, j: nat, id: string, expiry: int) {
    && i <= j <= |rounds| && expiry > 0
    && (forall k :: i <= k < j && rounds[k].read.Some? ==> OnItsRow(rounds[k].read.value, id, expiry))
    && (forall k, l :: i <= k <= l < j ==> rounds[k].now <= rounds[l].now)
    && !Knows(Published(rounds, i), id, expiry)
  }

  // The pair is known before round k exactly when some earlier round, from i on,
  // read the store after it lapsed.
  lemma {:induction false} KnownOnceSeen(rounds: seq<Round>, i: nat, j: nat, id: string, expiry: int, k: nat)
    requires Stands(rounds, i, j, id, expiry) && i <= k <= j
    ensures Knows(Published(rounds, k), id, expiry) <==>
      exists m :: i <= m < k && rounds[m].read.Some? && rounds[m].now >= expiry
  {
    if k > i {
      KnownOnceSeen(rounds, i, j, id, expiry, k - 1);
      var last := rounds[k - 1];
      if last.read.Some? {
        var screens := last.read.value;
        LapsedByRow(screens, id, last.now);
        var r :| 0 <= r < |screens| && TheRow(screens, id, r) && screens[r].override.Some? &&
          screens[r].override.value.expiresAt == expiry;
        assert HasLapsed(screens[r], last.now) <==> last.now >= expiry;
      }
    }
  }

  // A lapse left on its row is announced by the first round that reads the store
  // once it has run out, and by no other.
  lemma AnnouncedExactlyOnce(rounds: seq<Round>, i: nat, j: nat, id: string, expiry: int, k: nat)
    requires Stands(rounds, i, j, id, expiry) && i <= k < j
    ensures Announces(rounds, k, id, expiry) <==>
      && rounds[k].read.Some? && rounds[k].now >= expiry
      && forall m :: i <= m < k && rounds[m].read.Some? ==> rounds[m].now < expiry
  {
    KnownOnceSeen(rounds, i, j, id, expiry, k);
    if rounds[k].read.Some? {
      var screens := rounds[k].read.value;
      LapsedByRow(screens, id, rounds[k].now);
      var r :| 0 <= r < |screens| && TheRow(screens, id, r) && screens[r].override.Some? &&
        screens[r].override.value.expiresAt == expiry;
      assert HasLapsed(screens[r], rounds[k].now) <==> rounds[k].now >= expiry;
    }
  }

  // ---- What a failed advance loses ----

  // The generation was advanced at a round that had seen the pair lapsed. Whatever
  // the round asked on account of, such an advance carries this lapse too.
  ghost predicate Delivered(rounds: seq<Round>, i: nat, j: nat, expiry: int)
    requires i <= j <= |rounds|
  {
    exists k :: i <= k < j && rounds[k].now >= expiry && Asks(rounds, k) && rounds[k].advances
  }

  // The loop never asks again on account of a pair it has announced: the lapse is
  // delivered exactly when the announcing round's advance succeeds, or a later
  // round's that some other pair asked for.
  lemma DeliveredIff(rounds: seq<Round>, i: nat, j: nat, id: string, expiry: int, k: nat)
    requires Stands(rounds, i, j, id, expiry) && i <= k < j && Announces(rounds, k, id, expiry)
    ensures Delivered(rounds, i, j, expiry) <==>
      rounds[k].advances || exists m :: k < m < j && AsksForAnother(rounds, m, id) && rounds[m].advances
  {
    AnnouncedExactlyOnce(rounds, i, j, id, expiry, k);
    AsksForAPair(rounds, k);
    forall m | k < m < j ensures Asks(rounds, m) <==> AsksForAnother(rounds, m, id) {
      OnlyOthersAsk(rounds, i, j, id, expiry, k, m);
    }
  }

  // Round m asks on account of some pair of another screen.
  ghost predicate AsksForAnother(rounds: seq<Round>, m: nat, id: string)
    requires m < |rounds|
  {
    exists other, expiry :: other != id && Announces(rounds, m, other, expiry)
  }

  lemma OnlyOthersAsk(rounds: seq<Round>, i: nat, j: nat, id: string, expiry: int, k: nat, m: nat)
    requires Stands(rounds, i, j, id, expiry) && i <= k < m < j && Announces(rounds, k, id, expiry)
    ensures Asks(rounds, m) <==> AsksForAnother(rounds, m, id)
  {
    AsksForAPair(rounds, m);
    AnnouncedExactlyOnce(rounds, i, j, id, expiry, k);
    AnnouncedExactlyOnce(rounds, i, j, id, expiry, m);
    if rounds[m].read.Some? {
      forall e ensures !Announces(rounds, m, id, e) {
        OneExpiry(rounds[m].read.value, id, expiry, rounds[m].now, e);
      }
    }
  }

  lemma OneExpiry(screens: seq<Screen>, id: string, expiry: int, now: nat, e: int)
    requires OnItsRow(screens, id, expiry)
    ensures Knows(Lapsed(screens, now), id, e) ==> e == expiry
  {
    LapsedByRow(screens, id, now);
    var r :| 0 <= r < |screens| && TheRow(screens, id, r) && screens[r].override.Some? &&
      screens[r].override.value.expiresAt == expiry;
    assert HasLapsed(screens[r], now) || id !in Lapsed(screens, now);
  }

  // So one failed advance, with no other lapse after it, is never made up for.
  lemma FailedAdvanceIsNotRetried()
    ensures var screen := Screen("s", Some(ScreenOverride("alert", "", "", 5, 0)));
      var rounds := [Round(Some([screen]), 5, false), Round(Some([screen]), 6, true)];
      Asks(rounds, 0) && !Asks(rounds, 1)
  {
    var screen := Screen("s", Some(ScreenOverride("alert", "", "", 5, 0)));
    var rounds := [Round(Some([screen]), 5, false), Round(Some([screen]), 6, true)];
    assert [screen][..0] == [];
    assert Lapsed([screen], 5) == map["s" := 5] == Lapsed([screen], 6);
    assert Published(rounds, 0) == map[];
    assert Knows(Lapsed([screen], 5), "s", 5) && !Knows(Published(rounds, 0), "s", 5);
    assert Announces(rounds, 0, "s", 5);
    AsksForAPair(rounds, 0);
    assert Published(rounds, 1) == map["s" := 5];
  }
}
