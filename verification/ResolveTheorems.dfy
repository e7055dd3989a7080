// What resolution depends on, and what it does not.
module ResolutionTheorems {
  import opened Wrappers
  import opened Overlaps
  import opened Resolution

  ghost predicate DistinctIds(schedules: seq<Schedule>) {
    forall i, j :: 0 <= i < j < |schedules| ==> schedules[i].id != schedules[j].id
  }

  ghost predicate DistinctFallbacks(fallbacks: seq<Fallback>) {
    forall i, j :: 0 <= i < j < |fallbacks| ==> fallbacks[i].id != fallbacks[j].id
  }

  // ---- The state is determined ----

  lemma ContendersAreKnownById(store: RowStore, node: string, t: int, a: Ranked, b: Ranked)
    requires DistinctIds(store.schedules) && Contends(store, node, t, a) && Contends(store, node, t, b)
    ensures a.s.id == b.s.id ==> a == b
  {
    var i :| 0 <= i < |store.schedules| && store.schedules[i] == a.s;
    var j :| 0 <= j < |store.schedules| && store.schedules[j] == b.s;
    if a.s.id == b.s.id {
      assert i == j;
      OneDistance(store.tree, node, a.s.scopeNode, a.dist, b.dist);
    }
  }

  // With distinct schedule ids the rows call for exactly one state.
  lemma ResolvedIsUnique(store: RowStore, node: string, loc: Zone, t: int, a: EffectiveState, b: EffectiveState)
    requires DistinctIds(store.schedules)
    requires Resolved(store, node, loc, t, a) && Resolved(store, node, loc, t, b)
    ensures a == b
  {
    if NothingClaimed(store, node, loc, t) {
    } else {
      var p :| Governs(store, node, loc, t, p) && a == StateOf(p.s, ClaimOf(store, loc, t, p.s));
      var q :| Governs(store, node, loc, t, q) && b == StateOf(q.s, ClaimOf(store, loc, t, q.s));
      ContendersAreKnownById(store, node, t, p, q);
      AboveIsAnOrder(p, q, p);
    }
  }

  // What a resolved state shows is what its governing row commands: content only
  // where that row's power is on, and then that row's playlist; off and blank show
  // nothing; and with no governing row nothing is shown and no schedule is named.
  lemma StateIsCoherent(store: RowStore, node: string, loc: Zone, t: int, state: EffectiveState)
    requires Resolved(store, node, loc, t, state)
    ensures state.daypart.None? || state.fallback.None?
    ensures state.display == Content <==>
      (state.daypart.Some? && state.daypart.value.displayPower == "on") ||
      (state.fallback.Some? && state.fallback.value.displayPower == "on")
    ensures state.playlistId ==
      if state.display == Blank then ""
      else if state.daypart.Some? then state.daypart.value.playlistId else state.fallback.value.playlistId
    ensures state.daypart.Some? ==>
      state.daypart.value in store.dayparts && state.daypart.value.scheduleId == state.scheduleId &&
      Holds(state.daypart.value, Some(loc), t)
    ensures state.fallback.Some? ==>
      state.fallback.value in store.fallbacks && state.fallback.value.id != "" &&
      forall s ::
        s in store.schedules && InForceAt(store.windows, s.id, t)
        && (exists d: nat :: OnChain(store.tree, node, s.scopeNode, d)) ==>
        HoldingDaypart(s.id, store.dayparts, Some(loc), t).None?
    ensures state.daypart.None? && state.fallback.None? ==> state.scheduleId == ""
  {
    if r :| Governs(store, node, loc, t, r) && state == StateOf(r.s, ClaimOf(store, loc, t, r.s)) {
      var c := ClaimOf(store, loc, t, r.s);
      if c.Fall? {
        forall s | s in store.schedules && InForceAt(store.windows, s.id, t) &&
          (exists d: nat :: OnChain(store.tree, node, s.scopeNode, d))
          ensures HoldingDaypart(s.id, store.dayparts, Some(loc), t).None?
        {
          var d: nat :| OnChain(store.tree, node, s.scopeNode, d);
          assert Contends(store, node, t, Ranked(s, d));
        }
      }
    }
  }

  // ---- Row order ----

  ghost predicate Permuted(a: RowStore, b: RowStore) {
    && a.tree == b.tree
    && multiset(a.schedules) == multiset(b.schedules)
    && multiset(a.windows) == multiset(b.windows)
    && multiset(a.dayparts) == multiset(b.dayparts)
    && multiset(a.fallbacks) == multiset(b.fallbacks)
  }

  lemma InForceIgnoresRowOrder(a: seq<ValidityWindow>, b: seq<ValidityWindow>, sid: string, t: int)
    requires multiset(a) == multiset(b)
    ensures InForceAt(a, sid, t) ==> InForceAt(b, sid, t)
  {
    if i :| 0 <= i < |b| && b[i].scheduleId == sid {
      assert b[i] in multiset(a);
    }
    if i :| 0 <= i < |a| && a[i].scheduleId == sid && a[i].Contains(t) {
      assert a[i] in multiset(b);
      var k :| 0 <= k < |b| && b[k] == a[i];
    }
  }

  lemma ContendersIgnoreRowOrder(a: RowStore, b: RowStore, node: string, t: int, r: Ranked)
    requires Permuted(a, b)
    ensures Contends(a, node, t, r) <==> Contends(b, node, t, r)
  {
    InForceIgnoresRowOrder(a.windows, b.windows, r.s.id, t);
    InForceIgnoresRowOrder(b.windows, a.windows, r.s.id, t);
    assert r.s in multiset(a.schedules) <==> r.s in multiset(b.schedules);
  }

  lemma FallbackIgnoresRowOrder(a: seq<Fallback>, b: seq<Fallback>, id: string)
    requires multiset(a) == multiset(b) && DistinctFallbacks(a)
    ensures FindFallback(a, id) == FindFallback(b, id)
  {
    var inA, inB := FindFallback(a, id), FindFallback(b, id);
    if inA.Some? {
      assert inA.value in multiset(b);
      var k :| 0 <= k < |b| && b[k] == inA.value;
    }
    if inB.Some? {
      assert inB.value in multiset(a);
      var i :| 0 <= i < |a| && a[i] == inB.value;
      var k :| 0 <= k < |a| && a[k] == inA.value;
    }
  }

  lemma ClaimsIgnoreRowOrder(a: RowStore, b: RowStore, loc: Zone, t: int, s: Schedule)
    requires Permuted(a, b) && Partitioned(a.dayparts) && DistinctFallbacks(a.fallbacks)
    ensures ClaimOf(a, loc, t, s) == ClaimOf(b, loc, t, s)
  {
    HolderIgnoresRowOrder(a.dayparts, b.dayparts, s.id, Some(loc), t);
    FallbackIgnoresRowOrder(a.fallbacks, b.fallbacks, s.fallbackId);
  }

  // Rows in any order resolve to the same state.
  lemma RowOrderIsIrrelevant(
    a: RowStore, b: RowStore, node: string, loc: Zone, t: int, sa: EffectiveState, sb: EffectiveState)
    requires Permuted(a, b) && DistinctIds(a.schedules) && Partitioned(a.dayparts) && DistinctFallbacks(a.fallbacks)
    requires Resolved(a, node, loc, t, sa) && Resolved(b, node, loc, t, sb)
    ensures sa == sb
  {
    forall r ensures Contends(a, node, t, r) <==> Contends(b, node, t, r) {
      ContendersIgnoreRowOrder(a, b, node, t, r);
    }
    forall s ensures ClaimOf(a, loc, t, s) == ClaimOf(b, loc, t, s) {
      ClaimsIgnoreRowOrder(a, b, loc, t, s);
    }
    if r :| Governs(b, node, loc, t, r) && sb == StateOf(r.s, ClaimOf(b, loc, t, r.s)) {
      assert Governs(a, node, loc, t, r);
    }
    assert Resolved(a, node, loc, t, sb);
    ResolvedIsUnique(a, node, loc, t, sa, sb);
  }

  // ---- One more schedule ----

  // x takes the node over: it applies, it has something to offer, and it beats
  // every contender there was.
  ghost predicate TakesOver(store: RowStore, node: string, loc: Zone, t: int, x: Ranked) {
    && OnChain(store.tree, node, x.s.scopeNode, x.dist) && InForceAt(store.windows, x.s.id, t)
    && ClaimOf(store, loc, t, x.s) != Nothing
    && forall q {:trigger Contends(store, node, t, q)} :: Contends(store, node, t, q) ==>
         Beats(x, ClaimOf(store, loc, t, x.s), q, ClaimOf(store, loc, t, q.s))
  }

  function With(store: RowStore, s: Schedule): RowStore {
    store.(schedules := store.schedules + [s])
  }

  lemma ContendersWith(store: RowStore, node: string, t: int, s: Schedule, r: Ranked)
    ensures Contends(With(store, s), node, t, r) <==>
      Contends(store, node, t, r) ||
      (r.s == s && OnChain(store.tree, node, s.scopeNode, r.dist) && InForceAt(store.windows, s.id, t))
  {
    assert r.s in store.schedules + [s] <==> r.s in store.schedules || r.s == s;
  }

  lemma TakenOver(store: RowStore, node: string, loc: Zone, t: int, x: Ranked)
    requires TakesOver(store, node, loc, t, x)
    ensures Resolved(With(store, x.s), node, loc, t, StateOf(x.s, ClaimOf(store, loc, t, x.s)))
  {
    var all := With(store, x.s);
    forall s ensures ClaimOf(all, loc, t, s) == ClaimOf(store, loc, t, s) {
    }
    forall q | Contends(all, node, t, q)
      ensures !Beats(q, ClaimOf(all, loc, t, q.s), x, ClaimOf(all, loc, t, x.s))
    {
      ContendersWith(store, node, t, x.s, q);
      AboveIsAnOrder(q, x, q);
      if !Contends(store, node, t, q) { OneDistance(store.tree, node, x.s.scopeNode, q.dist, x.dist); }
    }
    ContendersWith(store, node, t, x.s, x);
    assert Governs(all, node, loc, t, x);
  }

  lemma NotTakenOver(store: RowStore, node: string, loc: Zone, t: int, s: Schedule, state: EffectiveState)
    requires Resolved(store, node, loc, t, state)
    requires forall d: nat :: !TakesOver(store, node, loc, t, Ranked(s, d))
    ensures Resolved(With(store, s), node, loc, t, state)
  {
    var all := With(store, s);
    forall z ensures ClaimOf(all, loc, t, z) == ClaimOf(store, loc, t, z) {
    }
    if NothingClaimed(store, node, loc, t) {
      forall q | Contends(all, node, t, q) ensures ClaimOf(all, loc, t, q.s) == Nothing {
        ContendersWith(store, node, t, s, q);
        assert !TakesOver(store, node, loc, t, Ranked(s, q.dist));
      }
    } else {
      var r :| Governs(store, node, loc, t, r) && state == StateOf(r.s, ClaimOf(store, loc, t, r.s));
      forall q | Contends(all, node, t, q)
        ensures !Beats(q, ClaimOf(all, loc, t, q.s), r, ClaimOf(all, loc, t, r.s))
      {
        ContendersWith(store, node, t, s, q);
        if !Contends(store, node, t, q) { LosesToTheBest(store, node, loc, t, q, r); }
      }
      ContendersWith(store, node, t, s, r);
      assert Governs(all, node, loc, t, r);
    }
  }

  lemma LosesToTheBest(store: RowStore, node: string, loc: Zone, t: int, x: Ranked, r: Ranked)
    requires Governs(store, node, loc, t, r)
    requires OnChain(store.tree, node, x.s.scopeNode, x.dist) && InForceAt(store.windows, x.s.id, t)
    requires !TakesOver(store, node, loc, t, x)
    ensures !Beats(x, ClaimOf(store, loc, t, x.s), r, ClaimOf(store, loc, t, r.s))
  {
    if Beats(x, ClaimOf(store, loc, t, x.s), r, ClaimOf(store, loc, t, r.s)) {
      forall q | Contends(store, node, t, q)
        ensures Beats(x, ClaimOf(store, loc, t, x.s), q, ClaimOf(store, loc, t, q.s))
      {
        AboveIsAnOrder(x, r, q);
      }
      assert false;
    }
  }

  // The daypart in effect comes from a schedule that ranks above s.
  ghost predicate OutranksOnChain(store: RowStore, node: string, loc: Zone, t: int, r: Ranked, s: Schedule, d: nat) {
    && Governs(store, node, loc, t, r) && ClaimOf(store, loc, t, r.s).Day?
    && OnChain(store.tree, node, s.scopeNode, d) && Above(r, Ranked(s, d))
  }

  // Adding a schedule changes the state exactly when it takes the node over, and
  // then to its own; off the chain, out of force or outranked it changes nothing.
  lemma AddingASchedule(
    store: RowStore, node: string, loc: Zone, t: int, s: Schedule, before: EffectiveState, after: EffectiveState)
    requires DistinctIds(With(store, s).schedules)
    requires Resolved(store, node, loc, t, before) && Resolved(With(store, s), node, loc, t, after)
    ensures after ==
      if exists d: nat :: TakesOver(store, node, loc, t, Ranked(s, d))
      then StateOf(s, ClaimOf(store, loc, t, s)) else before
    ensures (forall d: nat :: !OnChain(store.tree, node, s.scopeNode, d)) ==> after == before
    ensures forall r, d: nat :: OutranksOnChain(store, node, loc, t, r, s, d) ==> after == before
  {
    if d: nat :| TakesOver(store, node, loc, t, Ranked(s, d)) {
      TakenOver(store, node, loc, t, Ranked(s, d));
      ResolvedIsUnique(With(store, s), node, loc, t, after, StateOf(s, ClaimOf(store, loc, t, s)));
    } else {
      NotTakenOver(store, node, loc, t, s, before);
      ResolvedIsUnique(With(store, s), node, loc, t, after, before);
    }
    forall r, d: nat | OutranksOnChain(store, node, loc, t, r, s, d)
      ensures after == before
    {
      AboveIsAnOrder(r, Ranked(s, d), r);
      forall e: nat ensures !TakesOver(store, node, loc, t, Ranked(s, e)) {
        if OnChain(store.tree, node, s.scopeNode, e) { OneDistance(store.tree, node, s.scopeNode, d, e); }
      }
    }
  }
}
