// Which daypart or fallback governs a scope node at an instant, across all the
// schedules that apply to it.
module Resolution {
  import opened Wrappers
  import opened Strings
  import opened Grouping
  import opened Dayparts
  import opened Overlaps

  // ---- Rows ----

  // The parent of each known scope node.
  type ScopeTree = map<string, Option<string>>

  datatype Schedule = Schedule(
    id: string, scopeNode: string, name: string, fallbackId: string, priority: Option<int>, misfire: string)
  {
    function EffectivePriority(): int {
      if priority.None? then 0 else priority.value
    }
  }

  datatype ValidityWindow = ValidityWindow(scheduleId: string, startsAt: Option<int>, endsAt: Option<int>)
  {
    predicate Contains(t: int) {
      (startsAt.None? || startsAt.value <= t) && (endsAt.None? || t < endsAt.value)
    }
  }

  datatype Fallback = Fallback(id: string, displayPower: string, playlistId: string)

  datatype RowStore = RowStore(
    tree: ScopeTree, schedules: seq<Schedule>, windows: seq<ValidityWindow>,
    dayparts: seq<Daypart>, fallbacks: seq<Fallback>)

  // ---- Ancestors ----

  // k steps up the parent chain, as far as the tree goes.
  function Up(tree: ScopeTree, node: string, k: nat): Option<string> {
    if k == 0 then if node in tree then Some(node) else None
    else
      match Up(tree, node, k - 1)
      case None => None
      case Some(n) => if tree[n].Some? && tree[n].value in tree then tree[n] else None
  }

  predicate Distinct<T(==)>(s: seq<T>) {
    forall i, j :: 0 <= i < j < |s| ==> s[i] != s[j]
  }

  // The chain runs upward without repetition, and stops only where the tree does
  // or where the next step would repeat.
  ghost predicate IsChain(tree: ScopeTree, node: string, chain: seq<string>) {
    && |chain| > 0 && Distinct(chain)
    && (forall i :: 0 <= i < |chain| ==> Up(tree, node, i) == Some(chain[i]))
    && (Up(tree, node, |chain|).None? ||
        exists i :: 0 <= i < |chain| && Up(tree, node, |chain|) == Some(chain[i]))
  }

  // The walk so far: out is the first steps up, and cur is the next.
  ghost predicate Climbed(tree: ScopeTree, node: string, out: seq<string>, cur: string) {
    && cur in tree && Up(tree, node, |out|) == Some(cur) && Distinct(out)
    && forall i {:trigger out[i]} :: 0 <= i < |out| ==> Up(tree, node, i) == Some(out[i])
  }

  lemma ClimbStep(tree: ScopeTree, node: string, out: seq<string>, seen: set<string>, cur: string)
    requires Climbed(tree, node, out, cur) && Lists(out, seen)
    ensures cur in seen ==> IsChain(tree, node, out)
    ensures cur !in seen && (tree[cur].None? || tree[cur].value !in tree) ==> IsChain(tree, node, out + [cur])
    ensures cur !in seen && tree[cur].Some? && tree[cur].value in tree ==>
      Climbed(tree, node, out + [cur], tree[cur].value)
  {
    var next := out + [cur];
    assert Up(tree, node, |out| + 1) == if tree[cur].Some? && tree[cur].value in tree then tree[cur] else None;
    forall i | 0 <= i < |next| ensures Up(tree, node, i) == Some(next[i]) {
      if i < |out| { assert next[i] == out[i]; }
    }
  }

  method AncestorChain(tree: ScopeTree, node: string) returns (chain: Option<seq<string>>)
    ensures chain.None? <==> node !in tree
    ensures chain.Some? ==> IsChain(tree, node, chain.value)
  {
    if node !in tree { return None; }
    var out: seq<string> := [];
    var seen: set<string> := {};
    var cur := node;
    while true
      invariant Climbed(tree, node, out, cur) && Lists(out, seen) && seen <= tree.Keys
      decreases tree.Keys - seen
    {
      ClimbStep(tree, node, out, seen, cur);
      ListsAppend(out, seen, cur);
      if cur in seen { break; }
      seen := seen + {cur};
      out := out + [cur];
      if tree[cur].None? { break; }
      if tree[cur].value !in tree { break; }
      cur := tree[cur].value;
    }
    return Some(out);
  }

  // The chain is exactly the nodes reached by following parents, however far and
  // around whatever cycle, each at its least distance; so it is the only one.
  lemma {:induction false} ChainIsReachability(tree: ScopeTree, node: string, chain: seq<string>, k: nat)
    requires IsChain(tree, node, chain)
    ensures Up(tree, node, k).Some? ==> exists i :: 0 <= i < |chain| && i <= k && Up(tree, node, k) == Some(chain[i])
  {
    if k < |chain| {
      assert Up(tree, node, k) == Some(chain[k]);
    } else if k > |chain| && Up(tree, node, k).Some? {
      ChainIsReachability(tree, node, chain, k - 1);
      var i :| 0 <= i < |chain| && Up(tree, node, k - 1) == Some(chain[i]);
      assert Up(tree, node, k) == Up(tree, node, i + 1);
      if i + 1 < |chain| { assert Up(tree, node, k) == Some(chain[i + 1]); }
    }
  }

  lemma ChainIsUnique(tree: ScopeTree, node: string, a: seq<string>, b: seq<string>)
    requires IsChain(tree, node, a) && IsChain(tree, node, b)
    ensures a == b
  {
    ChainNotShorter(tree, node, a, b);
    ChainNotShorter(tree, node, b, a);
    forall i | 0 <= i < |a| ensures a[i] == b[i] {
      assert Up(tree, node, i) == Some(a[i]) == Some(b[i]);
    }
  }

  lemma ChainNotShorter(tree: ScopeTree, node: string, a: seq<string>, b: seq<string>)
    requires IsChain(tree, node, a) && IsChain(tree, node, b)
    ensures |a| >= |b|
  {
    forall i | 0 <= i < |a| && i < |b| ensures a[i] == b[i] {
      assert Up(tree, node, i) == Some(a[i]);
    }
  }

  // ---- Contenders ----

  datatype Ranked = Ranked(s: Schedule, dist: nat)

  function WindowOwner(w: ValidityWindow): string { w.scheduleId }

  // No windows is always in force; otherwise some window contains the instant.
  ghost predicate InForceAt(windows: seq<ValidityWindow>, sid: string, t: int) {
    || (forall i :: 0 <= i < |windows| ==> windows[i].scheduleId != sid)
    || exists i :: 0 <= i < |windows| && windows[i].scheduleId == sid && windows[i].Contains(t)
  }

  method InForce(windows: seq<ValidityWindow>, t: int) returns (r: bool)
    ensures r <==> windows == [] || exists i :: 0 <= i < |windows| && windows[i].Contains(t)
  {
    if |windows| == 0 { return true; }
    for i := 0 to |windows|
      invariant forall k :: 0 <= k < i ==> !windows[k].Contains(t)
    {
      if windows[i].Contains(t) { return true; }
    }
    return false;
  }

  // A schedule in force whose scope node is on the chain, with its distance.
  ghost predicate Contends(store: RowStore, node: string, t: int, r: Ranked) {
    && r.s in store.schedules
    && OnChain(store.tree, node, r.s.scopeNode, r.dist)
    && InForceAt(store.windows, r.s.id, t)
  }

  // n is the node or an ancestor of it, at its least distance.
  ghost predicate OnChain(tree: ScopeTree, node: string, n: string, dist: nat) {
    Up(tree, node, dist) == Some(n) && forall k: nat :: k < dist ==> Up(tree, node, k) != Some(n)
  }

  // ---- Precedence ----

  // Higher priority, then nearer, then lower id.
  predicate Above(a: Ranked, b: Ranked) {
    var pa, pb := a.s.EffectivePriority(), b.s.EffectivePriority();
    if pa != pb then pa > pb
    else if a.dist != b.dist then a.dist < b.dist
    else Less(a.s.id, b.s.id)
  }

  lemma AboveIsAnOrder(a: Ranked, b: Ranked, c: Ranked)
    ensures !(Above(a, b) && Above(b, a))
    ensures a.s.id != b.s.id ==> Above(a, b) || Above(b, a)
    ensures Above(a, b) && !Above(c, b) ==> Above(a, c)
    ensures Above(a, b) && Above(b, c) ==> Above(a, c)
  {
    LessIsStrictTotal(a.s.id, b.s.id);
    LessIsStrictTotal(b.s.id, c.s.id);
    LessIsStrictTotal(a.s.id, c.s.id);
    if Less(a.s.id, b.s.id) && Less(b.s.id, c.s.id) { LessIsTransitive(a.s.id, b.s.id, c.s.id); }
  }

  ghost predicate Ordered(ranked: seq<Ranked>) {
    forall i, j {:trigger Above(ranked[j], ranked[i])} :: 0 <= i < j < |ranked| ==> !Above(ranked[j], ranked[i])
  }

  // Stable: a row goes after the rows it is not above.
  function Insert(ranked: seq<Ranked>, r: Ranked): (out: seq<Ranked>)
    ensures multiset(out) == multiset(ranked) + multiset{r}
  {
    if ranked == [] || !Above(r, ranked[|ranked| - 1]) then ranked + [r]
    else
      var n := |ranked| - 1;
      assert ranked == ranked[..n] + [ranked[n]];
      Insert(ranked[..n], r) + [ranked[n]]
  }

  function SortStable(rows: seq<Ranked>): (out: seq<Ranked>)
    ensures multiset(out) == multiset(rows)
  {
    if rows == [] then []
    else
      var n := |rows| - 1;
      assert rows == rows[..n] + [rows[n]];
      Insert(SortStable(rows[..n]), rows[n])
  }

  lemma OrderedAppend(front: seq<Ranked>, r: Ranked)
    requires Ordered(front) && forall i :: 0 <= i < |front| ==> !Above(r, front[i])
    ensures Ordered(front + [r])
  {
  }

  lemma {:induction false} InsertKeepsOrder(ranked: seq<Ranked>, r: Ranked)
    requires Ordered(ranked)
    ensures Ordered(Insert(ranked, r))
  {
    if ranked != [] {
      var n := |ranked| - 1;
      if !Above(r, ranked[n]) {
        forall i | 0 <= i <= n ensures !Above(r, ranked[i]) {
          if i < n { assert !Above(ranked[n], ranked[i]); }
          AboveIsAnOrder(r, ranked[i], ranked[n]);
        }
        OrderedAppend(ranked, r);
      } else {
        InsertKeepsOrder(ranked[..n], r);
        var front := Insert(ranked[..n], r);
        forall i | 0 <= i < |front| ensures !Above(ranked[n], front[i]) {
          AboveIsAnOrder(r, ranked[n], r);
          assert front[i] in multiset(ranked[..n]) + multiset{r};
          if front[i] != r {
            var k :| 0 <= k < n && ranked[k] == front[i];
            assert !Above(ranked[n], ranked[k]);
          }
        }
        OrderedAppend(front, ranked[n]);
      }
    }
  }

  lemma {:induction false} SortedIsOrdered(rows: seq<Ranked>)
    ensures Ordered(SortStable(rows))
  {
    if rows != [] {
      SortedIsOrdered(rows[..|rows| - 1]);
      InsertKeepsOrder(SortStable(rows[..|rows| - 1]), rows[|rows| - 1]);
    }
  }

  // ---- Applicable schedules ----

  method Distances(chain: seq<string>) returns (distByNode: map<string, nat>)
    requires Distinct(chain)
    ensures forall i :: 0 <= i < |chain| ==> chain[i] in distByNode && distByNode[chain[i]] == i
    ensures forall n :: n in distByNode ==> distByNode[n] < |chain| && chain[distByNode[n]] == n
  {
    distByNode := map[];
    for i := 0 to |chain|
      invariant forall k :: 0 <= k < i ==> chain[k] in distByNode && distByNode[chain[k]] == k
      invariant forall n :: n in distByNode ==> distByNode[n] < i && chain[distByNode[n]] == n
    {
      distByNode := distByNode[chain[i] := i];
    }
  }

  lemma OnChainIsPosition(tree: ScopeTree, node: string, chain: seq<string>, n: string, dist: nat)
    requires IsChain(tree, node, chain)
    ensures OnChain(tree, node, n, dist) <==> dist < |chain| && chain[dist] == n
  {
    if OnChain(tree, node, n, dist) {
      ChainIsReachability(tree, node, chain, dist);
      var i :| 0 <= i < |chain| && i <= dist && Up(tree, node, dist) == Some(chain[i]);
      assert Up(tree, node, i) == Some(chain[i]);
    }
    if dist < |chain| && chain[dist] == n {
      assert Up(tree, node, dist) == Some(n);
      forall k: nat | k < dist ensures Up(tree, node, k) != Some(n) {
        assert Up(tree, node, k) == Some(chain[k]);
      }
    }
  }

  method WindowsOf(groups: map<string, seq<ValidityWindow>>, ghost windows: seq<ValidityWindow>, sid: string, t: int)
    returns (r: bool)
    requires Grouped(groups, windows, WindowOwner)
    ensures r <==> InForceAt(windows, sid, t)
  {
    var mine := if sid in groups then groups[sid] else [];
    assert mine == Group(windows, WindowOwner, sid);
    r := InForce(mine, t);
    if mine != [] { var i := GroupComesFrom(windows, WindowOwner, sid, 0); }
    if i :| 0 <= i < |windows| && windows[i].scheduleId == sid {
      var at := GroupHolds(windows, WindowOwner, sid, i);
    }
    if i :| 0 <= i < |windows| && windows[i].scheduleId == sid && windows[i].Contains(t) {
      var at := GroupHolds(windows, WindowOwner, sid, i);
      assert mine[at].Contains(t);
    }
    if at :| 0 <= at < |mine| && mine[at].Contains(t) {
      var i := GroupComesFrom(windows, WindowOwner, sid, at);
      assert windows[i].Contains(t);
    }
  }

  // ranked holds contenders only, and every contender among the first n schedules.
  ghost predicate Gathered(ranked: seq<Ranked>, store: RowStore, node: string, t: int, n: nat) {
    && n <= |store.schedules|
    && (forall i :: 0 <= i < |ranked| ==> Contends(store, node, t, ranked[i]))
    && forall i, dist {:trigger Contends(store, node, t, Ranked(store.schedules[i], dist))} ::
         0 <= i < n && Contends(store, node, t, Ranked(store.schedules[i], dist)) ==>
           Ranked(store.schedules[i], dist) in multiset(ranked)
  }

  lemma GatherStep(ranked: seq<Ranked>, store: RowStore, node: string, chain: seq<string>, t: int, n: nat)
    requires n < |store.schedules| && Gathered(ranked, store, node, t, n) && IsChain(store.tree, node, chain)
    ensures var s := store.schedules[n];
      && ((forall d :: 0 <= d < |chain| ==> chain[d] != s.scopeNode) || !InForceAt(store.windows, s.id, t) ==>
            Gathered(ranked, store, node, t, n + 1))
      && forall d :: 0 <= d < |chain| && chain[d] == s.scopeNode && InForceAt(store.windows, s.id, t) ==>
           Gathered(ranked + [Ranked(s, d)], store, node, t, n + 1)
  {
    var s := store.schedules[n];
    forall dist: nat | Contends(store, node, t, Ranked(s, dist))
      ensures dist < |chain| && chain[dist] == s.scopeNode && InForceAt(store.windows, s.id, t)
    {
      OnChainIsPosition(store.tree, node, chain, s.scopeNode, dist);
    }
    forall d | 0 <= d < |chain| && chain[d] == s.scopeNode && InForceAt(store.windows, s.id, t)
      ensures Gathered(ranked + [Ranked(s, d)], store, node, t, n + 1)
    {
      OnChainIsPosition(store.tree, node, chain, s.scopeNode, d);
      assert Contends(store, node, t, Ranked(s, d));
      assert multiset(ranked + [Ranked(s, d)]) == multiset(ranked) + multiset{Ranked(s, d)};
    }
  }

  lemma ContendsAt(store: RowStore, node: string, chain: seq<string>, t: int, s: Schedule)
    requires IsChain(store.tree, node, chain) && s in store.schedules
    ensures forall d: nat :: Contends(store, node, t, Ranked(s, d)) <==>
      d < |chain| && chain[d] == s.scopeNode && InForceAt(store.windows, s.id, t)
  {
    forall d: nat ensures Contends(store, node, t, Ranked(s, d)) <==>
      d < |chain| && chain[d] == s.scopeNode && InForceAt(store.windows, s.id, t)
    {
      OnChainIsPosition(store.tree, node, chain, s.scopeNode, d);
    }
  }

  // Each contender as often as its row stands among the first n schedules.
  ghost predicate Counted(ranked: seq<Ranked>, store: RowStore, node: string, t: int, n: nat) {
    && n <= |store.schedules|
    && forall r {:trigger multiset(ranked)[r]} ::
         multiset(ranked)[r] == if Contends(store, node, t, r) then multiset(store.schedules[..n])[r.s] else 0
  }

  lemma CountStep(ranked: seq<Ranked>, store: RowStore, node: string, t: int, n: nat)
    requires n < |store.schedules| && Counted(ranked, store, node, t, n)
    ensures (forall d: nat :: !Contends(store, node, t, Ranked(store.schedules[n], d))) ==>
      Counted(ranked, store, node, t, n + 1)
    ensures forall d: nat :: Contends(store, node, t, Ranked(store.schedules[n], d)) ==>
      Counted(ranked + [Ranked(store.schedules[n], d)], store, node, t, n + 1)
  {
    var s := store.schedules[n];
    assert store.schedules[..n + 1] == store.schedules[..n] + [s];
    forall d: nat | Contends(store, node, t, Ranked(s, d))
      ensures Counted(ranked + [Ranked(s, d)], store, node, t, n + 1)
    {
      var more := ranked + [Ranked(s, d)];
      forall r
        ensures multiset(more)[r] == if Contends(store, node, t, r) then multiset(store.schedules[..n + 1])[r.s] else 0
      {
        assert multiset(ranked)[r] == if Contends(store, node, t, r) then multiset(store.schedules[..n])[r.s] else 0;
        if r.s == s && Contends(store, node, t, r) { OneDistance(store.tree, node, s.scopeNode, r.dist, d); }
      }
    }
  }

  ghost predicate Taken(ranked: seq<Ranked>, store: RowStore, node: string, t: int, n: nat) {
    Gathered(ranked, store, node, t, n) && Counted(ranked, store, node, t, n)
  }

  // Whether a schedule is left or taken, the list stays right.
  lemma TakeStep(ranked: seq<Ranked>, store: RowStore, node: string, chain: seq<string>, t: int, n: nat)
    requires n < |store.schedules| && Taken(ranked, store, node, t, n) && IsChain(store.tree, node, chain)
    ensures var s := store.schedules[n];
      && ((forall d :: 0 <= d < |chain| ==> chain[d] != s.scopeNode) || !InForceAt(store.windows, s.id, t) ==>
            Taken(ranked, store, node, t, n + 1))
      && forall d :: 0 <= d < |chain| && chain[d] == s.scopeNode && InForceAt(store.windows, s.id, t) ==>
           Taken(ranked + [Ranked(s, d)], store, node, t, n + 1)
  {
    GatherStep(ranked, store, node, chain, t, n);
    ContendsAt(store, node, chain, t, store.schedules[n]);
    CountStep(ranked, store, node, t, n);
  }

  lemma OneDistance(tree: ScopeTree, node: string, n: string, d: nat, e: nat)
    requires OnChain(tree, node, n, d) && OnChain(tree, node, n, e)
    ensures d == e
  {
  }

  method Applicable(store: RowStore, node: string, chain: seq<string>, t: int) returns (ranked: seq<Ranked>)
    requires IsChain(store.tree, node, chain)
    ensures Taken(ranked, store, node, t, |store.schedules|)
  {
    var distByNode := Distances(chain);
    var windowsBySchedule, order := GroupBy(store.windows, WindowOwner);
    ranked := [];
    assert store.schedules[..0] == [];
    for i := 0 to |store.schedules|
      invariant Taken(ranked, store, node, t, i)
    {
      ranked := TakeNext(ranked, store, node, chain, distByNode, windowsBySchedule, t, i);
    }
  }

  method TakeNext(ranked: seq<Ranked>, store: RowStore, ghost node: string, ghost chain: seq<string>,
                  distByNode: map<string, nat>, windowsBySchedule: map<string, seq<ValidityWindow>>, t: int, i: nat)
    returns (more: seq<Ranked>)
    requires i < |store.schedules| && Taken(ranked, store, node, t, i) && IsChain(store.tree, node, chain)
    requires forall d :: 0 <= d < |chain| ==> chain[d] in distByNode && distByNode[chain[d]] == d
    requires forall n :: n in distByNode ==> distByNode[n] < |chain| && chain[distByNode[n]] == n
    requires Grouped(windowsBySchedule, store.windows, WindowOwner)
    ensures Taken(more, store, node, t, i + 1)
  {
    var s := store.schedules[i];
    TakeStep(ranked, store, node, chain, t, i);
    if s.scopeNode !in distByNode { return ranked; }
    var inForce := WindowsOf(windowsBySchedule, store.windows, s.id, t);
    if !inForce { return ranked; }
    return ranked + [Ranked(s, distByNode[s.scopeNode])];
  }

  // The contenders and no others, the highest precedence first.
  method ApplicableSchedules(store: RowStore, node: string, t: int)
    returns (schedules: seq<Schedule>, ghost ranked: seq<Ranked>)
    ensures Ordered(ranked) && Gathered(ranked, store, node, t, |store.schedules|)
    ensures |schedules| == |ranked| && forall i :: 0 <= i < |ranked| ==> schedules[i] == ranked[i].s
    ensures forall s :: s in schedules <==> exists dist: nat :: Contends(store, node, t, Ranked(s, dist))
    ensures Counted(ranked, store, node, t, |store.schedules|)
  {
    var chain := AncestorChain(store.tree, node);
    if chain.None? {
      NoContenders(store, node, t);
      schedules, ranked := [], [];
      return;
    }
    var applicable := Applicable(store, node, chain.value, t);
    SortedIsOrdered(applicable);
    var sorted := SortStable(applicable);
    ranked := sorted;
    forall i | 0 <= i < |sorted| ensures Contends(store, node, t, sorted[i]) {
      assert sorted[i] in multiset(sorted);
      assert sorted[i] in multiset(applicable);
    }
    schedules := seq(|sorted|, i requires 0 <= i < |sorted| => sorted[i].s);
    RankedAreTheContenders(store, node, t, ranked, schedules);
  }

  lemma RankedAreTheContenders(store: RowStore, node: string, t: int, ranked: seq<Ranked>, schedules: seq<Schedule>)
    requires Gathered(ranked, store, node, t, |store.schedules|)
    requires |schedules| == |ranked| && forall i :: 0 <= i < |ranked| ==> schedules[i] == ranked[i].s
    ensures forall s :: s in schedules <==> exists dist: nat :: Contends(store, node, t, Ranked(s, dist))
  {
    forall s ensures s in schedules <==> exists dist: nat :: Contends(store, node, t, Ranked(s, dist)) {
      if dist: nat :| Contends(store, node, t, Ranked(s, dist)) {
        var k := IsGathered(store, node, t, ranked, Ranked(s, dist));
        assert schedules[k] == s;
      }
      if s in schedules {
        var i :| 0 <= i < |schedules| && schedules[i] == s;
        assert Contends(store, node, t, Ranked(s, ranked[i].dist));
      }
    }
  }

  lemma NoContenders(store: RowStore, node: string, t: int)
    requires node !in store.tree
    ensures forall r :: !Contends(store, node, t, r)
  {
    forall r ensures !Contends(store, node, t, r) {
      UpFromNowhere(store.tree, node, r.dist);
    }
  }

  lemma {:induction false} UpFromNowhere(tree: ScopeTree, node: string, k: nat)
    requires node !in tree
    ensures Up(tree, node, k).None?
  {
    if k > 0 { UpFromNowhere(tree, node, k - 1); }
  }

  // ---- Resolution ----

  datatype Display = Content | Blank

  // What governs a node, and what it projects to; at the terminal default both
  // rows are absent and the screen shows nothing.
  datatype EffectiveState = EffectiveState(
    daypart: Option<Daypart>, fallback: Option<Fallback>, display: Display, playlistId: string, scheduleId: string)

  const TERMINAL := EffectiveState(None, None, Blank, "", "")

  function ProjectDisplay(power: string, playlistId: string): (Display, string) {
    if power == "on" then (Content, playlistId) else (Blank, "")
  }

  function FindFallback(fallbacks: seq<Fallback>, id: string): (found: Option<Fallback>)
    ensures found.Some? ==> found.value.id == id && found.value in multiset(fallbacks)
    ensures found.None? ==> forall i :: 0 <= i < |fallbacks| ==> fallbacks[i].id != id
  {
    if fallbacks == [] then None
    else if fallbacks[0].id == id then Some(fallbacks[0])
    else
      var rest := FindFallback(fallbacks[1..], id);
      assert forall i :: 0 < i < |fallbacks| ==> fallbacks[i] == fallbacks[1..][i - 1];
      assert fallbacks == [fallbacks[0]] + fallbacks[1..];
      rest
  }

  // What one schedule has to offer: its holding daypart, failing that its
  // fallback row.
  datatype Claim = Day(daypart: Daypart) | Fall(fallback: Fallback) | Nothing
  {
    function Layer(): nat {
      match this case Day(_) => 0 case Fall(_) => 1 case Nothing => 2
    }
  }

  function FallbackClaim(store: RowStore, s: Schedule): Claim {
    if s.fallbackId == "" then Nothing
    else match FindFallback(store.fallbacks, s.fallbackId) case None => Nothing case Some(f) => Fall(f)
  }

  function ClaimOf(store: RowStore, loc: Zone, t: int, s: Schedule): Claim {
    match HoldingDaypart(s.id, store.dayparts, Some(loc), t)
    case Some(d) => Day(d)
    case None => FallbackClaim(store, s)
  }

  function StateOf(s: Schedule, c: Claim): EffectiveState {
    match c
    case Nothing => TERMINAL
    case Day(d) =>
      var (display, playlist) := ProjectDisplay(d.displayPower, d.playlistId);
      EffectiveState(Some(d), None, display, playlist, s.id)
    case Fall(f) =>
      var (display, playlist) := ProjectDisplay(f.displayPower, f.playlistId);
      EffectiveState(None, Some(f), display, playlist, s.id)
  }

  // Any holding daypart before any fallback; within a layer, by precedence.
  predicate Beats(a: Ranked, ca: Claim, b: Ranked, cb: Claim) {
    ca.Layer() < cb.Layer() || (ca.Layer() == cb.Layer() && Above(a, b))
  }

  // The contender that no contender beats, if it has anything to offer.
  ghost predicate Governs(store: RowStore, node: string, loc: Zone, t: int, r: Ranked) {
    && Contends(store, node, t, r) && ClaimOf(store, loc, t, r.s) != Nothing
    && forall q {:trigger Contends(store, node, t, q)} :: Contends(store, node, t, q) ==>
         !Beats(q, ClaimOf(store, loc, t, q.s), r, ClaimOf(store, loc, t, r.s))
  }

  ghost predicate NothingClaimed(store: RowStore, node: string, loc: Zone, t: int) {
    forall q {:trigger Contends(store, node, t, q)} :: Contends(store, node, t, q) ==>
      ClaimOf(store, loc, t, q.s) == Nothing
  }

  // The state the rows call for, said without ranking or scanning anything.
  ghost predicate Resolved(store: RowStore, node: string, loc: Zone, t: int, state: EffectiveState) {
    || (exists r {:trigger Governs(store, node, loc, t, r)} ::
          Governs(store, node, loc, t, r) && state == StateOf(r.s, ClaimOf(store, loc, t, r.s)))
    || (NothingClaimed(store, node, loc, t) && state == TERMINAL)
  }

  lemma FirstClaimGoverns(store: RowStore, node: string, loc: Zone, t: int, ranked: seq<Ranked>, i: nat)
    requires Ordered(ranked) && Gathered(ranked, store, node, t, |store.schedules|) && i < |ranked|
    requires ClaimOf(store, loc, t, ranked[i].s) != Nothing
    requires forall k :: 0 <= k < i ==>
      ClaimOf(store, loc, t, ranked[k].s).Layer() > ClaimOf(store, loc, t, ranked[i].s).Layer()
    requires forall k :: 0 <= k < |ranked| ==>
      ClaimOf(store, loc, t, ranked[k].s).Layer() >= ClaimOf(store, loc, t, ranked[i].s).Layer()
    ensures Resolved(store, node, loc, t, StateOf(ranked[i].s, ClaimOf(store, loc, t, ranked[i].s)))
  {
    var r := ranked[i];
    forall q | Contends(store, node, t, q)
      ensures !Beats(q, ClaimOf(store, loc, t, q.s), r, ClaimOf(store, loc, t, r.s))
    {
      var k := IsGathered(store, node, t, ranked, q);
      AboveIsAnOrder(q, r, q);
      if k > i { assert !Above(ranked[k], ranked[i]); }
    }
    assert Governs(store, node, loc, t, r);
  }

  lemma IsGathered(store: RowStore, node: string, t: int, ranked: seq<Ranked>, q: Ranked) returns (k: nat)
    requires Gathered(ranked, store, node, t, |store.schedules|) && Contends(store, node, t, q)
    ensures k < |ranked| && ranked[k] == q
  {
    var i :| 0 <= i < |store.schedules| && store.schedules[i] == q.s;
    assert Contends(store, node, t, Ranked(store.schedules[i], q.dist));
    assert q in multiset(ranked);
    k :| 0 <= k < |ranked| && ranked[k] == q;
  }

  lemma NoClaims(store: RowStore, node: string, loc: Zone, t: int, ranked: seq<Ranked>)
    requires Gathered(ranked, store, node, t, |store.schedules|)
    requires forall k :: 0 <= k < |ranked| ==> ClaimOf(store, loc, t, ranked[k].s) == Nothing
    ensures Resolved(store, node, loc, t, TERMINAL)
  {
    forall q | Contends(store, node, t, q) ensures ClaimOf(store, loc, t, q.s) == Nothing {
      var k := IsGathered(store, node, t, ranked, q);
    }
  }

  method DaypartLayer(store: RowStore, loc: Zone, t: int, schedules: seq<Schedule>) returns (at: Option<nat>)
    ensures at.Some? ==> at.value < |schedules| && ClaimOf(store, loc, t, schedules[at.value]).Day?
    ensures at.Some? ==> forall k :: 0 <= k < at.value ==> !ClaimOf(store, loc, t, schedules[k]).Day?
    ensures at.None? ==> forall k :: 0 <= k < |schedules| ==> !ClaimOf(store, loc, t, schedules[k]).Day?
  {
    for i := 0 to |schedules|
      invariant forall k :: 0 <= k < i ==> !ClaimOf(store, loc, t, schedules[k]).Day?
    {
      if HoldingDaypart(schedules[i].id, store.dayparts, Some(loc), t).Some? { return Some(i); }
    }
    return None;
  }

  method FallbackLayer(store: RowStore, loc: Zone, t: int, schedules: seq<Schedule>) returns (at: Option<nat>)
    requires forall k :: 0 <= k < |schedules| ==> !ClaimOf(store, loc, t, schedules[k]).Day?
    ensures at.Some? ==> at.value < |schedules| && ClaimOf(store, loc, t, schedules[at.value]).Fall?
    ensures at.Some? ==> forall k :: 0 <= k < at.value ==> ClaimOf(store, loc, t, schedules[k]) == Nothing
    ensures at.None? ==> forall k :: 0 <= k < |schedules| ==> ClaimOf(store, loc, t, schedules[k]) == Nothing
  {
    for i := 0 to |schedules|
      invariant forall k :: 0 <= k < i ==> ClaimOf(store, loc, t, schedules[k]) == Nothing
    {
      var s := schedules[i];
      if s.fallbackId == "" { continue; }
      if FindFallback(store.fallbacks, s.fallbackId).Some? { return Some(i); }
    }
    return None;
  }

  // Only an unresolvable zone is an error; otherwise the state is the one the
  // rows call for.
  method Resolve(store: RowStore, node: string, tz: Result<Zone, string>, t: int)
    returns (state: Result<EffectiveState, string>)
    ensures tz.Err? ==> state == Err(tz.error)
    ensures tz.Ok? ==> state.Ok? && Resolved(store, node, tz.value, t, state.value)
  {
    if tz.Err? { return Err(tz.error); }
    var loc := tz.value;
    ghost var ranked;
    var schedules;
    schedules, ranked := ApplicableSchedules(store, node, t);
    var at := DaypartLayer(store, loc, t, schedules);
    if at.None? {
      at := FallbackLayer(store, loc, t, schedules);
    }
    if at.None? {
      NoClaims(store, node, loc, t, ranked);
      return Ok(TERMINAL);
    }
    FirstClaimGoverns(store, node, loc, t, ranked, at.value);
    var s := schedules[at.value];
    return Ok(StateOf(s, ClaimOf(store, loc, t, s)));
  }
}
