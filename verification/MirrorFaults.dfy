// How often a durable write that keeps failing is reported.
module MirrorFaults {
  import opened Bytes

  const MAX_QUIET_MS := 6 * 60 * 60 * 1000

  datatype Faults = Faults(consecutive: nat, sinceMs: int, lastReportMs: int, nextReport: nat)

  const NONE := Faults(0, 0, 0, 0)

  // One failed write: the run's new state, and whether it is reported.
  function Failed(f: Faults, now: int): (Faults, bool) {
    var g := if f.consecutive == 0 then Faults(0, now, now, 1) else f;
    var n := g.consecutive + 1;
    var byCount, byTime := n >= g.nextReport, now - g.lastReportMs >= MAX_QUIET_MS;
    if !byCount && !byTime then (g.(consecutive := n), false)
    else (Faults(n, g.sinceMs, now, if byCount then 2 * g.nextReport else g.nextReport), true)
  }

  class Tracker {
    var consecutive: nat
    var sinceMs: int
    var lastReportMs: int
    var nextReport: nat

    constructor ()
      ensures View() == NONE
    {
      consecutive, sinceMs, lastReportMs, nextReport := 0, 0, 0, 0;
    }

    ghost function View(): Faults
      reads this
    {
      Faults(consecutive, sinceMs, lastReportMs, nextReport)
    }

    method Fail(now: int) returns (report: bool, count: nat, lasted: int)
      modifies this
      ensures (View(), report) == Failed(old(View()), now)
      ensures count == consecutive == old(consecutive) + 1 && lasted == now - sinceMs
    {
      if consecutive == 0 {
        sinceMs := now;
        lastReportMs := now;
        nextReport := 1;
      }
      consecutive := consecutive + 1;
      var byCount := consecutive >= nextReport;
      var byTime := now - lastReportMs >= MAX_QUIET_MS;
      if !byCount && !byTime { return false, consecutive, now - sinceMs; }
      if byCount { nextReport := nextReport * 2; }
      lastReportMs := now;
      return true, consecutive, now - sinceMs;
    }

    method Pending() returns (r: bool)
      ensures r <==> consecutive > 0
    {
      return consecutive > 0;
    }

    // Says once what the run was, and starts the next one afresh.
    method Recover(now: int) returns (report: bool, count: nat, lasted: int)
      modifies this`consecutive, this`nextReport
      ensures report <==> old(consecutive) > 0
      ensures count == old(consecutive) && (report ==> lasted == now - sinceMs)
      ensures consecutive == 0 && forall t :: Failed(View(), t) == Failed(NONE, t)
    {
      if consecutive == 0 { return false, 0, 0; }
      count := consecutive;
      lasted := now - sinceMs;
      consecutive, nextReport := 0, 0;
      report := true;
    }
  }

  // ---- A run of failures ----

  function After(times: seq<int>): Faults {
    if times == [] then NONE else Failed(After(times[..|times| - 1]), times[|times| - 1]).0
  }

  predicate Reports(times: seq<int>, k: nat)
    requires k < |times|
  {
    Failed(After(times[..k]), times[k]).1
  }

  function Count(times: seq<int>): nat {
    if times == [] then 0
    else Count(times[..|times| - 1]) + if Reports(times, |times| - 1) then 1 else 0
  }

  predicate Ascending(times: seq<int>) {
    forall i, j :: 0 <= i <= j < |times| ==> times[i] <= times[j]
  }

  // The exponent of the largest power of two not above n.
  function Log2(n: nat): (k: nat)
    requires n >= 1
    ensures Pow2(k) <= n < 2 * Pow2(k)
  {
    if n == 1 then 0 else 1 + Log2(n / 2)
  }

  lemma {:induction false} PowersGrow(i: nat, j: nat)
    requires i < j
    ensures 2 * Pow2(i) <= Pow2(j)
  {
    if i < j - 1 { PowersGrow(i, j - 1); }
  }

  lemma LogIsUnique(n: nat, k: nat)
    requires n >= 1 && Pow2(k) <= n < 2 * Pow2(k)
    ensures Log2(n) == k
  {
    if Log2(n) < k { PowersGrow(Log2(n), k); }
    if k < Log2(n) { PowersGrow(k, Log2(n)); }
  }

  lemma LogStep(n: nat)
    requires n >= 1
    ensures Log2(n + 1) == if n + 1 == 2 * Pow2(Log2(n)) then Log2(n) + 1 else Log2(n)
  {
    var k := Log2(n);
    if n + 1 == 2 * Pow2(k) {
      assert Pow2(k + 1) == n + 1;
      LogIsUnique(n + 1, k + 1);
    } else {
      LogIsUnique(n + 1, k);
    }
  }

  // After n failures the next count to report at is the least power of two above n.
  lemma {:induction false} NextPower(times: seq<int>)
    requires times != []
    ensures var f := After(times);
      f.consecutive == |times| && f.sinceMs == times[0] && f.nextReport == 2 * Pow2(Log2(|times|))
  {
    var n := |times| - 1;
    if n > 0 {
      NextPower(times[..n]);
      LogStep(n);
    } else {
      assert times[..0] == [];
    }
  }

  // The last time a report went out.
  predicate LastReport(times: seq<int>, k: nat, j: nat)
    requires k <= |times|
  {
    j < k && Reports(times, j) && forall m :: j < m < k ==> !Reports(times, m)
  }

  lemma {:induction false} LastReportIsKept(times: seq<int>) returns (j: nat)
    requires times != []
    ensures LastReport(times, |times|, j) && After(times).lastReportMs == times[j]
  {
    var n := |times| - 1;
    assert times[..|times|] == times && times[..0] == [];
    assert Reports(times, 0);
    if Reports(times, n) {
      j := n;
    } else {
      j := LastReportIsKept(times[..n]);
      assert times[..n][..j] == times[..j];
      forall m | j < m < n ensures !Reports(times, m) {
        assert times[..n][..m] == times[..m];
        assert !Reports(times[..n], m);
      }
    }
  }

  // A failure is reported exactly when its number is a power of two or the last
  // report is a quiet ceiling ago.
  lemma ReportsIff(times: seq<int>, k: nat)
    requires k < |times|
    ensures Reports(times, k) <==>
      || (exists p :: k + 1 == Pow2(p))
      || exists j: nat :: LastReport(times, k, j) && times[k] - times[j] >= MAX_QUIET_MS
  {
    var before := times[..k];
    if k == 0 {
      assert before == [];
      assert Pow2(0) == 1;
    } else {
      NextPower(before);
      var last := LastReportIsKept(before);
      LastReportOfPrefix(times, k, last);
      CountRule(k);
      forall j: nat | LastReport(times, k, j) ensures j == last {
      }
    }
  }

  lemma LastReportOfPrefix(times: seq<int>, k: nat, j: nat)
    requires k <= |times| && LastReport(times[..k], k, j)
    ensures LastReport(times, k, j)
  {
    assert times[..k][..j] == times[..j];
    forall m | j < m < k ensures !Reports(times, m) {
      assert times[..k][..m] == times[..m];
      assert !Reports(times[..k], m);
    }
  }

  lemma CountRule(k: nat)
    requires k >= 1
    ensures (exists p :: k + 1 == Pow2(p)) <==> k + 1 >= 2 * Pow2(Log2(k))
  {
    if k + 1 >= 2 * Pow2(Log2(k)) { assert k + 1 == Pow2(Log2(k) + 1); }
    if p: nat :| k + 1 == Pow2(p) {
      if p > 0 {
        assert Pow2(p) == 2 * Pow2(p - 1);
        assert Pow2(p - 1) <= k < 2 * Pow2(p - 1);
        LogIsUnique(k, p - 1);
      }
    }
  }

  // While the clock does not go back, the last report is always less than the
  // quiet ceiling ago once a failure has been recorded.
  lemma NeverQuietForLong(times: seq<int>)
    requires times != []
    ensures exists j: nat :: LastReport(times, |times|, j) && times[|times| - 1] - times[j] < MAX_QUIET_MS
  {
    var j := LastReportIsKept(times);
    var n := |times| - 1;
    if !Reports(times, n) { ReportsIff(times, n); LastReportShrinks(times, j); }
  }

  lemma LastReportShrinks(times: seq<int>, j: nat)
    requires times != [] && LastReport(times, |times|, j) && !Reports(times, |times| - 1)
    ensures LastReport(times, |times| - 1, j)
  {
  }

  // A report is paid for by a new power of two, or by a quiet ceiling gone by.
  lemma ReportIsPaidFor(f: Faults, n: nat, since: int, now: int)
    requires n >= 1 && f.consecutive == n && f.nextReport == 2 * Pow2(Log2(n)) && since <= f.lastReportMs <= now
    ensures var (g, report) := Failed(f, now);
      && since <= g.lastReportMs <= now
      && (if report then 1 else 0) + Log2(n) + (f.lastReportMs - since) / MAX_QUIET_MS
           <= Log2(n + 1) + (g.lastReportMs - since) / MAX_QUIET_MS
  {
    LogStep(n);
    QuietQuotient(f.lastReportMs - since, now - since);
  }

  // A run of n failures over T milliseconds is reported at most
  // floor(log2 n) + 1 + floor(T / the quiet ceiling) times.
  lemma {:induction false} ReportsAreFew(times: seq<int>)
    requires times != [] && Ascending(times)
    ensures times[0] <= After(times).lastReportMs <= times[|times| - 1]
    ensures Count(times) <= Log2(|times|) + 1 + (After(times).lastReportMs - times[0]) / MAX_QUIET_MS
    ensures Count(times) <= Log2(|times|) + 1 + (times[|times| - 1] - times[0]) / MAX_QUIET_MS
  {
    var n := |times| - 1;
    var before := times[..n];
    if n == 0 {
      assert before == [];
    } else {
      ReportsAreFew(before);
      NextPower(before);
      assert before[0] == times[0] && before[n - 1] <= times[n];
      ReportIsPaidFor(After(before), n, times[0], times[n]);
    }
    QuietQuotient(After(times).lastReportMs - times[0], times[n] - times[0]);
  }

  lemma QuietQuotient(a: int, b: int)
    requires 0 <= a <= b
    ensures a / MAX_QUIET_MS <= b / MAX_QUIET_MS
    ensures b - a >= MAX_QUIET_MS ==> a / MAX_QUIET_MS + 1 <= b / MAX_QUIET_MS
  {
  }
}
