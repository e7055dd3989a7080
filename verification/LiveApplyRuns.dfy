// Every interleaving of live pulls with resolver writes, late ones included.
module LiveApplyRuns {
  import opened LiveApply

  // A resolver some apply built, and the only thing of it that matters here:
  // where and at what generation it writes, for as long as it lives and after.
  datatype Writer = Writer(gen: int, screen: string)

  // How far the current apply has come: the next entry to install, the resolvers
  // being built, or nothing under way.
  datatype Stage = Installing(next: nat) | Building | Idle

  // applied is the generation under way, or the last one actually applied.
  datatype System = System(
    served: Served, revoked: set<string>, lastGen: int, lastHash: string, applied: Applied, stage: Stage,
    writers: set<Writer>)

  // The relay boots by applying a generation to a server that serves nothing.
  ghost predicate Init(s: System) {
    s.served == NOTHING && s.revoked == RevokedOf(s.applied.revoked) && s.writers == {} && s.stage == Installing(0)
    && s.lastGen == s.applied.gen && s.lastHash == s.applied.hash
  }

  // A resolver writes, of whatever generation and however late.
  ghost predicate Write(s: System, t: System) {
    exists w, p: Program {:trigger Put(s.served, w.gen, w.screen, p)} ::
      w in s.writers && p.priority == SCHEDULED && t == s.(served := Put(s.served, w.gen, w.screen, p))
  }

  // A pull fails or brings nothing newer.
  ghost predicate Ignore(s: System, t: System) {
    s.stage.Idle? && t == s
  }

  // A newer generation with the sections last applied.
  ghost predicate Repeat(s: System, t: System, a: Applied) {
    s.stage.Idle? && a.gen > s.lastGen && SameHash(s.lastHash, a) && t == s.(lastGen := a.gen)
  }

  // The revocation view goes first, before any program.
  ghost predicate Begin(s: System, t: System, a: Applied) {
    s.stage.Idle? && a.gen > s.lastGen && !SameHash(s.lastHash, a)
    && t == s.(applied := a, revoked := RevokedOf(a.revoked), stage := Installing(0))
  }

  ghost predicate Install(s: System, t: System) {
    && s.stage.Installing? && s.stage.next < |s.applied.entries|
    && var e := s.applied.entries[s.stage.next];
       t == s.(served := Put(s.served, s.applied.gen, e.screenId, e.program), stage := Installing(s.stage.next + 1))
  }

  // The resolvers are built, each writing the attributed screen or none.
  ghost predicate Build(s: System, t: System) {
    && s.stage == Installing(|s.applied.entries|)
    && exists screen ::
         && (screen == "" || Attributed(s.applied.governed, s.applied.entries, screen))
         && t == s.(stage := Building, writers := s.writers + {Writer(s.applied.gen, screen)})
  }

  ghost predicate Finish(s: System, t: System) {
    s.stage.Building? && t == s.(stage := Idle, lastGen := s.applied.gen, lastHash := s.applied.hash)
  }

  ghost predicate Next(s: System, t: System) {
    || Write(s, t) || Ignore(s, t) || Install(s, t) || Build(s, t) || Finish(s, t)
    || exists a :: Repeat(s, t, a) || Begin(s, t, a)
  }

  // ---- The invariant ----

  // Nothing this generation's install would have to yield to.
  predicate Clear(s: Served, gen: int, screen: string) {
    screen !in s.programs || GenOf(s, screen) < gen
  }

  ghost predicate WellFormed(s: Served, gen: int) {
    && s.programs.Keys == s.gens.Keys
    && forall x :: x in s.gens ==> s.gens[x] <= gen
  }

  // Screen x serves its entry of the first n, or none of them names it.
  ghost predicate Installed(s: System, n: nat, x: string)
    requires n <= |s.applied.entries|
  {
    var final := Final(s.applied.entries[..n], x);
    if final.None? then Clear(s.served, s.applied.gen, x)
    else x in s.served.programs && s.served.programs[x] == final.value && GenOf(s.served, x) == s.applied.gen
  }

  ghost predicate Inv(s: System) {
    && WellFormed(s.served, s.applied.gen) && s.revoked == RevokedOf(s.applied.revoked)
    && (forall w :: w in s.writers ==> w.gen <= s.applied.gen)
    && match s.stage
       case Installing(n) =>
         && n <= |s.applied.entries| && s.lastGen <= s.applied.gen
         && (forall w :: w in s.writers ==> w.gen < s.applied.gen)
         && (forall x :: x != "" ==> Installed(s, n, x))
       case Building =>
         s.lastGen <= s.applied.gen && Settled(s)
       case Idle =>
         s.applied.gen <= s.lastGen && Settled(s)
  }

  // Every screen the generation names serves its entry, except the one screen the
  // schedule may write.
  ghost predicate Settled(s: System) {
    && (forall w :: w in s.writers && w.gen == s.applied.gen ==>
          w.screen == "" || Attributed(s.applied.governed, s.applied.entries, w.screen))
    && forall x {:trigger Final(s.applied.entries, x)} :: x != "" && Final(s.applied.entries, x).Some? ==>
         && x in s.served.programs && GenOf(s.served, x) == s.applied.gen
         && (!Attributed(s.applied.governed, s.applied.entries, x) ==>
           s.served.programs[x] == Final(s.applied.entries, x).value)
  }

  lemma InitInv(s: System)
    requires Init(s)
    ensures Inv(s)
  {
    assert s.applied.entries[..0] == [];
  }

  lemma WriteInv(s: System, t: System)
    requires Inv(s) && Write(s, t)
    ensures Inv(t)
  {
    var w, p: Program :|
      w in s.writers && p.priority == SCHEDULED && t == s.(served := Put(s.served, w.gen, w.screen, p));
    if s.stage.Installing? {
      forall x ensures x != "" ==> Installed(t, s.stage.next, x) {
        if x != "" { assert Installed(s, s.stage.next, x); }
      }
    }
  }

  lemma InstallInv(s: System, t: System)
    requires Inv(s) && Install(s, t)
    ensures Inv(t)
  {
    var n := s.stage.next;
    var entries := s.applied.entries;
    assert entries[..n + 1][..n] == entries[..n];
    var m := t.stage.next;
    forall x ensures x != "" ==> Installed(t, m, x) {
      if x != "" { assert Installed(s, n, x); }
    }
  }

  lemma BuildInv(s: System, t: System)
    requires Inv(s) && Build(s, t)
    ensures Inv(t)
  {
    var entries := s.applied.entries;
    assert entries[..|entries|] == entries;
    forall x | x != "" && Final(entries, x).Some?
      ensures x in s.served.programs && GenOf(s.served, x) == s.applied.gen &&
        s.served.programs[x] == Final(entries, x).value
    {
      assert Installed(s, |entries|, x);
    }
  }

  lemma BeginInv(s: System, t: System, a: Applied)
    requires Inv(s) && Begin(s, t, a)
    ensures Inv(t)
  {
    assert a.entries[..0] == [];
  }

  lemma NextInv(s: System, t: System)
    requires Inv(s) && Next(s, t)
    ensures Inv(t)
  {
    if Write(s, t) { WriteInv(s, t); }
    else if Install(s, t) { InstallInv(s, t); }
    else if Build(s, t) { BuildInv(s, t); }
    else if a :| Begin(s, t, a) { BeginInv(s, t, a); }
  }

  // ---- Runs ----

  ghost predicate Run(states: seq<System>) {
    && |states| > 0 && Init(states[0])
    && forall i :: 0 <= i < |states| - 1 ==> Next(states[i], states[i + 1])
  }

  lemma {:induction false} RunInv(states: seq<System>, i: nat)
    requires Run(states) && i < |states|
    ensures Inv(states[i])
  {
    if i == 0 {
      InitInv(states[0]);
    } else {
      RunInv(states, i - 1);
      assert Next(states[i - 1], states[i - 1 + 1]);
      NextInv(states[i - 1], states[i]);
    }
  }

  lemma NeverBack(s: System, t: System)
    requires Inv(s) && Next(s, t)
    ensures s.lastGen <= t.lastGen && s.applied.gen <= t.applied.gen
    ensures forall x :: x in s.served.gens ==> x in t.served.gens && s.served.gens[x] <= t.served.gens[x]
  {
    if w, p: Program :|
      w in s.writers && p.priority == SCHEDULED && t == s.(served := Put(s.served, w.gen, w.screen, p))
    {
    } else if Install(s, t) {
    }
  }

  // Neither the applied generation nor the one any screen serves ever goes back.
  lemma {:induction false} GenerationsNeverGoBack(states: seq<System>, i: nat, j: nat, x: string)
    requires Run(states) && i <= j < |states|
    ensures states[i].lastGen <= states[j].lastGen
    ensures x in states[i].served.gens ==>
      x in states[j].served.gens && states[i].served.gens[x] <= states[j].served.gens[x]
  {
    if i < j {
      GenerationsNeverGoBack(states, i, j - 1, x);
      RunInv(states, j - 1);
      assert Next(states[j - 1], states[j - 1 + 1]);
      NeverBack(states[j - 1], states[j]);
    }
  }

  // A screen the generation names and the schedule may not write serves its entry
  // as soon as the generation is applied.
  lemma NamedServesItsEntry(s: System, x: string)
    requires Inv(s) && !s.stage.Installing? && x != ""
    requires Final(s.applied.entries, x).Some? && !Attributed(s.applied.governed, s.applied.entries, x)
    ensures Held(s, s.applied.gen, x, Final(s.applied.entries, x).value)
  {
  }

  // No apply newer than generation g has come to an entry for x yet.
  ghost predicate NotReached(s: System, g: int, x: string) {
    s.applied.gen > g ==> forall k :: 0 <= k < Reach(s) && k < |s.applied.entries| ==>
      s.applied.entries[k].screenId != x
  }

  // How many entries the apply under way, or the last one, has installed.
  function Reach(s: System): nat {
    if s.stage.Installing? then s.stage.next else |s.applied.entries|
  }

  // Screen x serves p as generation g's, and no resolver could replace it.
  ghost predicate Held(s: System, g: int, x: string, p: Program) {
    && x in s.served.programs && s.served.programs[x] == p && GenOf(s.served, x) == g
    && g <= s.applied.gen && (s.applied.gen == g ==> !s.stage.Installing?)
    && forall w :: w in s.writers && w.screen == x ==> w.gen < g
  }

  lemma HeldStep(s: System, t: System, g: int, x: string, p: Program)
    requires Inv(s) && Next(s, t) && x != "" && Held(s, g, x, p) && NotReached(t, g, x)
    ensures Held(t, g, x, p)
  {
    if Build(s, t) {
      var screen :| (screen == "" || Attributed(s.applied.governed, s.applied.entries, screen))
        && t == s.(stage := Building, writers := s.writers + {Writer(s.applied.gen, screen)});
      assert screen != x;
    } else if Install(s, t) {
      assert t.applied.entries[s.stage.next].screenId != x;
    }
  }

  // An apply that has come to an entry for x has replaced what x served before.
  lemma ReachedIsReplaced(s: System, g: int, x: string)
    requires Inv(s) && x != "" && !NotReached(s, g, x)
    ensures x in s.served.gens && s.served.gens[x] > g
  {
    var entries, n := s.applied.entries, Reach(s);
    assert entries[..|entries|] == entries;
    var k :| 0 <= k < n && k < |entries| && entries[k].screenId == x;
    assert entries[..n][k].screenId == x;
    FinalIsLastTakeoverElseLast(entries[..n], x);
    if s.stage.Installing? { assert Installed(s, n, x); }
  }

  lemma StillHeld(states: seq<System>, j: nat, g: int, x: string, p: Program)
    requires Run(states) && j + 1 < |states|
    requires x != "" && Held(states[j], g, x, p) && NotReached(states[j + 1], g, x)
    ensures Held(states[j + 1], g, x, p)
  {
    RunInv(states, j);
    HeldStep(states[j], states[j + 1], g, x, p);
  }

  lemma HeldWhileNotReached(states: seq<System>, i: nat, j: nat, g: int, x: string, p: Program)
    requires Run(states) && i <= j < |states| && x != "" && Held(states[i], g, x, p)
    requires forall k {:trigger states[k]} :: i <= k <= j ==> NotReached(states[k], g, x)
    ensures Held(states[j], g, x, p)
  {
    for k := i to j
      invariant Held(states[k], g, x, p)
    {
      StillHeld(states, k, g, x, p);
    }
  }

  lemma LostOnceReached(states: seq<System>, k: nat, j: nat, g: int, x: string, p: Program)
    requires Run(states) && k <= j < |states| && x != "" && !NotReached(states[k], g, x)
    ensures !Held(states[j], g, x, p)
  {
    RunInv(states, k);
    ReachedIsReplaced(states[k], g, x);
    GenerationsNeverGoBack(states, k, j, x);
  }

  // Once a generation is applied, a screen it names and the schedule may not write
  // serves its own entry exactly until a newer apply installs another for it:
  // through the start of newer applies, through whole generations that do not name
  // the screen, and whatever any resolver writes and however late.
  lemma KeptUntilReplaced(states: seq<System>, i: nat, j: nat, x: string)
    requires Run(states) && i <= j < |states| && !states[i].stage.Installing? && x != ""
    requires var a := states[i].applied; Final(a.entries, x).Some? && !Attributed(a.governed, a.entries, x)
    ensures var a := states[i].applied;
      Held(states[j], a.gen, x, Final(a.entries, x).value)
      <==> forall k {:trigger states[k]} :: i <= k <= j ==> NotReached(states[k], a.gen, x)
  {
    var g, p := states[i].applied.gen, Final(states[i].applied.entries, x).value;
    RunInv(states, i);
    NamedServesItsEntry(states[i], x);
    if k :| i <= k <= j && !NotReached(states[k], g, x) {
      LostOnceReached(states, k, j, g, x, p);
    } else {
      HeldWhileNotReached(states, i, j, g, x, p);
    }
  }

  // A pinned screen is one of them: no late write ever reverts a takeover.
  lemma PinnedScreenKeepsItsProgram(states: seq<System>, i: nat, j: nat, x: string)
    requires Run(states) && i <= j < |states| && !states[i].stage.Installing?
    requires x != "" && Pinned(states[i].applied.entries, x)
    ensures var a := states[i].applied;
      && Final(a.entries, x).Some?
      && (Held(states[j], a.gen, x, Final(a.entries, x).value)
          <==> forall k {:trigger states[k]} :: i <= k <= j ==> NotReached(states[k], a.gen, x))
  {
    FinalIsLastTakeoverElseLast(states[i].applied.entries, x);
    KeptUntilReplaced(states, i, j, x);
  }

  // While an apply is installing, every screen it has not reached still serves an
  // earlier generation, and every one it has reached serves the new entry.
  lemma InstallIsNeverUndone(states: seq<System>, i: nat, x: string)
    requires Run(states) && i < |states| && states[i].stage.Installing? && x != ""
    ensures var s := states[i];
      s.stage.next <= |s.applied.entries| && Installed(s, s.stage.next, x)
  {
    RunInv(states, i);
  }

  // A late write of a generation since replaced changes no screen the new one
  // has installed.
  lemma LateWriteIsFenced(states: seq<System>, i: nat, w: Writer, p: Program)
    requires Run(states) && i < |states| && !states[i].stage.Installing?
    requires w in states[i].writers && w.gen < states[i].applied.gen && Final(states[i].applied.entries, w.screen).Some?
    ensures Put(states[i].served, w.gen, w.screen, p) == states[i].served
  {
    RunInv(states, i);
  }

  // What a player of screen x is given, if anything.
  ghost predicate Given(s: System, x: string, p: Program) {
    x in s.served.programs && s.served.programs[x] == p && x !in s.revoked
  }

  // From the very start of an apply that revokes its screen a player is given nothing,
  // old programs or new, until an apply that does not.
  lemma RevokedScreenIsGivenNothing(states: seq<System>, i: nat, x: string, p: Program)
    requires Run(states) && i < |states| && x != "" && x in states[i].applied.revoked
    ensures !Given(states[i], x, p)
  {
    RunInv(states, i);
  }

  // ---- A pull nothing interrupts ----

  ghost predicate Steps(states: seq<System>, s: System, t: System) {
    && |states| > 0 && states[0] == s && states[|states| - 1] == t
    && forall i :: 0 <= i < |states| - 1 ==> Next(states[i], states[i + 1])
  }

  ghost predicate Reaches(s: System, t: System) {
    exists states :: Steps(states, s, t)
  }

  lemma ReachesNext(s: System, t: System, u: System)
    requires Reaches(s, t) && Next(t, u)
    ensures Reaches(s, u)
  {
    var states :| Steps(states, s, t);
    var longer := states + [u];
    forall i | 0 <= i < |longer| - 1 ensures Next(longer[i], longer[i + 1]) {
      if i < |states| - 1 { assert Next(states[i], states[i + 1]); }
    }
    assert Steps(longer, s, u);
  }

  ghost function InstalledUpTo(s: System, a: Applied, n: nat): System
    requires n <= |a.entries|
  {
    s.(applied := a, revoked := RevokedOf(a.revoked), stage := Installing(n),
       served := Baseline(s.served, a.gen, a.entries[..n]))
  }

  lemma {:induction false} InstallsInOrder(s: System, a: Applied, n: nat)
    requires s.stage.Idle? && a.gen > s.lastGen && !SameHash(s.lastHash, a) && n <= |a.entries|
    ensures Reaches(s, InstalledUpTo(s, a, n))
  {
    if n == 0 {
      assert a.entries[..0] == [];
      assert Begin(s, InstalledUpTo(s, a, 0), a);
      assert Steps([s], s, s);
      ReachesNext(s, s, InstalledUpTo(s, a, 0));
    } else {
      InstallsInOrder(s, a, n - 1);
      assert a.entries[..n][..n - 1] == a.entries[..n - 1];
      assert Install(InstalledUpTo(s, a, n - 1), InstalledUpTo(s, a, n));
      ReachesNext(s, InstalledUpTo(s, a, n - 1), InstalledUpTo(s, a, n));
    }
  }

  ghost function BuiltUpTo(s: System, a: Applied, screen: string, n: nat): System
    requires n <= |a.projected|
  {
    s.(applied := a, revoked := RevokedOf(a.revoked), stage := Building,
       writers := s.writers + {Writer(a.gen, screen)},
       served := Writes(Baseline(s.served, a.gen, a.entries), a.gen, screen, a.projected[..n]))
  }

  lemma {:induction false} WritesInOrder(s: System, a: Applied, screen: string, n: nat)
    requires s.stage.Idle? && a.gen > s.lastGen && !SameHash(s.lastHash, a) && a.Valid() && n <= |a.projected|
    requires screen == "" || Attributed(a.governed, a.entries, screen)
    ensures Reaches(s, BuiltUpTo(s, a, screen, n))
  {
    if n == 0 {
      var m := |a.entries|;
      InstallsInOrder(s, a, m);
      assert a.entries[..m] == a.entries && a.projected[..0] == [];
      assert Build(InstalledUpTo(s, a, m), BuiltUpTo(s, a, screen, 0));
      ReachesNext(s, InstalledUpTo(s, a, m), BuiltUpTo(s, a, screen, 0));
    } else {
      WritesInOrder(s, a, screen, n - 1);
      assert a.projected[..n][..n - 1] == a.projected[..n - 1];
      var before, after := BuiltUpTo(s, a, screen, n - 1), BuiltUpTo(s, a, screen, n);
      if a.projected[n - 1].Some? {
        var w := Writer(a.gen, screen);
        assert after == before.(served := Put(before.served, w.gen, w.screen, a.projected[n - 1].value));
        assert Write(before, after);
        ReachesNext(s, before, after);
      } else {
        assert after == before;
      }
    }
  }

  // What the puller does in one go is one of the interleavings: the state it
  // leaves is reached by these steps, so every property of the runs is its own.
  lemma TickIsARun(s: System, a: Applied, screen: string) returns (t: System)
    requires s.stage.Idle? && a.gen > s.lastGen && !SameHash(s.lastHash, a) && a.Valid()
    requires screen == "" || Attributed(a.governed, a.entries, screen)
    ensures Reaches(s, t) && t.stage.Idle? && t.applied == a && t.lastGen == a.gen && t.lastHash == a.hash
    ensures t.served == Writes(Baseline(s.served, a.gen, a.entries), a.gen, screen, a.projected)
    ensures t.revoked == RevokedOf(a.revoked)
  {
    var n := |a.projected|;
    WritesInOrder(s, a, screen, n);
    assert a.projected[..n] == a.projected;
    var built := BuiltUpTo(s, a, screen, n);
    t := built.(stage := Idle, lastGen := a.gen, lastHash := a.hash);
    assert Finish(built, t);
    ReachesNext(s, built, t);
  }
}
