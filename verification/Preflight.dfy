// Everything a restore decides about a verified manifest before it applies
// anything: the schema epoch, assets that travel by reference, the chain of base
// archives, and each locked pack.
module Preflights {
  import opened Wrappers
  import opened ArchiveCodes
  import opened Manifests

  const CHANNEL_DEV := "dev"

  datatype PackTrust = PackTrust(yanked: bool, substitute: string)

  // What the destination answers for itself. A missing answer is None and fails
  // closed. The archives it holds are a finite store.
  datatype Destination = Destination(
    schemaEpoch: int,
    developerMode: bool,
    packTrust: Option<PackLock -> PackTrust>,
    hasAsset: Option<string -> bool>,
    bootCritical: Option<PackLock -> bool>,
    archives: Option<map<string, Manifest>>)

  datatype PackOutcome = PackOutcome(
    pack: PackLock,
    restored: bool,
    substitutedVersion: string,
    code: Option<Code>,
    operatorSignal: bool)

  // ---- The base-archive chain ----

  // The archive an incremental manifest is based on, if the destination holds it.
  function BaseOf(dst: Destination, m: Manifest): Option<Manifest> {
    if m.mode == Incremental && m.baseArchive.Some? && dst.archives.Some?
       && m.baseArchive.value.digest in dst.archives.value
    then Some(dst.archives.value[m.baseArchive.value.digest])
    else None
  }

  // The manifest n base references away from m, if the chain goes that far.
  function Follow(dst: Destination, m: Manifest, n: nat): Option<Manifest> {
    if n == 0 then Some(m)
    else
      match Follow(dst, m, n - 1)
      case None => None
      case Some(c) => BaseOf(dst, c)
  }

  // Following base references from m reaches an archive that needs no base.
  ghost predicate ReachesFull(dst: Destination, m: Manifest) {
    exists n: nat :: Follow(dst, m, n).Some? && Follow(dst, m, n).value.mode != Incremental
  }

  // A set of incremental manifests the chain never leaves.
  ghost predicate Closed(dst: Destination, states: set<Manifest>) {
    forall x :: x in states ==>
      x.mode == Incremental && (BaseOf(dst, x).Some? ==> BaseOf(dst, x).value in states)
  }

  lemma {:induction false} NeverLeaves(dst: Destination, m: Manifest, states: set<Manifest>, n: nat)
    requires m in states && Closed(dst, states)
    ensures Follow(dst, m, n).Some? ==> Follow(dst, m, n).value in states
  {
    if n > 0 { NeverLeaves(dst, m, states, n - 1); }
  }

  // A chain confined to such a set does not reach a full archive: running into a
  // missing base and running into a cycle are both this.
  lemma StuckInside(dst: Destination, m: Manifest, states: set<Manifest>)
    requires m in states && Closed(dst, states)
    ensures !ReachesFull(dst, m)
  {
    forall n: nat ensures Follow(dst, m, n).Some? ==> Follow(dst, m, n).value.mode == Incremental {
      NeverLeaves(dst, m, states, n);
    }
  }

  // Walks the chain with a set of visited digests. It always ends, and the
  // refusals it makes, the cycle's included, never reject a chain that resolves.
  method ResolveBaseChain(m: Manifest, dst: Destination) returns (refusal: Option<Code>)
    ensures refusal == if ReachesFull(dst, m) then None else Some(BaseArchiveUnavailable)
  {
    if m.mode != Incremental {
      assert Follow(dst, m, 0) == Some(m);
      return None;
    }
    var seen: set<string> := {};
    var cur := m;
    // Every manifest walked through, and how many steps reached cur.
    ghost var states, steps := {m}, 0;
    while cur.mode == Incremental
      invariant Trail(dst, m, cur, seen, states, steps)
      decreases Unseen(dst, seen)
    {
      if cur.baseArchive.None? {
        TrailEnds(dst, m, cur, seen, states, steps);
        return Some(BaseArchiveUnavailable);
      }
      var digest := cur.baseArchive.value.digest;
      if digest in seen || dst.archives.None? || digest !in dst.archives.value {
        TrailEnds(dst, m, cur, seen, states, steps);
        return Some(BaseArchiveUnavailable);
      }
      FewerUnseen(dst, seen, digest);
      seen := seen + {digest};
      cur := dst.archives.value[digest];
      states, steps := states + {cur}, steps + 1;
    }
    return None;
  }

  // The walk so far: steps lead to cur; of everything walked through, all but cur
  // is incremental on something walked through; and so is whatever was visited.
  ghost predicate Trail(
    dst: Destination, m: Manifest, cur: Manifest, seen: set<string>, states: set<Manifest>, steps: nat)
  {
    && Follow(dst, m, steps) == Some(cur) && m in states && cur in states
    && (forall x {:trigger x in states} :: x in states && x != cur ==>
          x.mode == Incremental && BaseOf(dst, x).Some? && BaseOf(dst, x).value in states)
    && (forall d {:trigger d in seen} :: d in seen ==>
          dst.archives.Some? && d in dst.archives.value && dst.archives.value[d] in states)
  }

  // Where the walk cannot go on to anything new, the chain reaches no full archive.
  lemma TrailEnds(dst: Destination, m: Manifest, cur: Manifest, seen: set<string>, states: set<Manifest>, steps: nat)
    requires Trail(dst, m, cur, seen, states, steps) && cur.mode == Incremental
    requires BaseOf(dst, cur).Some? ==> cur.baseArchive.value.digest in seen
    ensures !ReachesFull(dst, m)
  {
    StuckInside(dst, m, states);
  }

  // The archives not walked through yet: what the walk can still use up.
  ghost function Unseen(dst: Destination, seen: set<string>): nat {
    if dst.archives.None? then 0 else |dst.archives.value.Keys - seen|
  }

  lemma FewerUnseen(dst: Destination, seen: set<string>, digest: string)
    requires dst.archives.Some? && digest in dst.archives.value && digest !in seen
    ensures Unseen(dst, seen + {digest}) < Unseen(dst, seen)
  {
    var keys := dst.archives.value.Keys;
    assert keys - (seen + {digest}) == (keys - seen) - {digest};
  }

  // ---- Locked packs ----

  function PreflightPack(p: PackLock, dst: Destination): PackOutcome {
    if p.channel == CHANNEL_DEV && !dst.developerMode then
      PackOutcome(p, false, "", Some(DevChannelRefused), true)
    else if dst.packTrust.None? then PackOutcome(p, false, "", Some(PackYankedBlocked), true)
    else
      var trust := dst.packTrust.value(p);
      if !trust.yanked then PackOutcome(p, true, "", None, false)
      else if trust.substitute != "" then PackOutcome(p, true, trust.substitute, None, true)
      else PackOutcome(p, false, "", Some(PackYankedBlocked), true)
  }

  // A pack outside the developer channel is restored as locked only if the
  // destination vouches for that version today; it is silent about exactly that.
  lemma OnlyVouchedPacksAreSilent(p: PackLock, dst: Destination)
    ensures var out := PreflightPack(p, dst);
      && (out.restored <==> out.code.None?)
      && (!out.operatorSignal <==> out.restored && out.substitutedVersion == "")
      && (!out.operatorSignal ==> dst.packTrust.Some? && !dst.packTrust.value(p).yanked)
      && (out.code == Some(DevChannelRefused) <==> p.channel == CHANNEL_DEV && !dst.developerMode)
  {
  }

  // ---- The whole verdict ----

  function Unresolvable(dst: Destination, a: AssetEntry): bool {
    a.storage == ByReference && (dst.hasAsset.None? || !dst.hasAsset.value(a.assetRef))
  }

  function Unbootable(dst: Destination, p: PackLock): bool {
    && PreflightPack(p, dst).code == Some(DevChannelRefused)
    && dst.bootCritical.Some? && dst.bootCritical.value(p)
  }

  function AssetRefusals(dst: Destination, assets: seq<AssetEntry>): seq<Code> {
    if assets == [] then []
    else
      var last := assets[|assets| - 1];
      AssetRefusals(dst, assets[..|assets| - 1]) + if Unresolvable(dst, last) then [AssetUnavailable] else []
  }

  function BootRefusals(dst: Destination, packs: seq<PackLock>): seq<Code> {
    if packs == [] then []
    else
      var last := packs[|packs| - 1];
      BootRefusals(dst, packs[..|packs| - 1]) + if Unbootable(dst, last) then [DevChannelRefused] else []
  }

  ghost function FatalOf(m: Manifest, dst: Destination): seq<Code> {
    (if m.platformSchemaEpoch > dst.schemaEpoch then [EpochTooNew] else [])
    + AssetRefusals(dst, m.assets)
    + (if ReachesFull(dst, m) then [] else [BaseArchiveUnavailable])
    + BootRefusals(dst, m.packs)
  }

  method Preflight(m: Manifest, dst: Destination) returns (fatal: seq<Code>, packs: seq<PackOutcome>)
    ensures fatal == FatalOf(m, dst)
    ensures |packs| == |m.packs| && forall i :: 0 <= i < |packs| ==> packs[i] == PreflightPack(m.packs[i], dst)
  {
    fatal := if m.platformSchemaEpoch > dst.schemaEpoch then [EpochTooNew] else [];
    var assets := CheckAssets(m.assets, dst);
    fatal := fatal + assets;
    var chain := ResolveBaseChain(m, dst);
    fatal := fatal + if chain.Some? then [chain.value] else [];
    packs := [];
    for i := 0 to |m.packs|
      invariant |packs| == i
      invariant forall k :: 0 <= k < i ==> packs[k] == PreflightPack(m.packs[k], dst)
    {
      packs := packs + [PreflightPack(m.packs[i], dst)];
    }
    var boot := CheckBoot(m.packs, packs, dst);
    fatal := fatal + boot;
  }

  method CheckAssets(assets: seq<AssetEntry>, dst: Destination) returns (refusals: seq<Code>)
    ensures refusals == AssetRefusals(dst, assets)
  {
    refusals := [];
    for i := 0 to |assets|
      invariant refusals == AssetRefusals(dst, assets[..i])
    {
      assert assets[..i + 1][..i] == assets[..i];
      if assets[i].storage != ByReference { continue; }
      if dst.hasAsset.None? || !dst.hasAsset.value(assets[i].assetRef) {
        refusals := refusals + [AssetUnavailable];
      }
    }
    assert assets[..|assets|] == assets;
  }

  // Runs over the outcomes once they are complete.
  method CheckBoot(packs: seq<PackLock>, outcomes: seq<PackOutcome>, dst: Destination) returns (refusals: seq<Code>)
    requires |outcomes| == |packs| && forall i :: 0 <= i < |packs| ==> outcomes[i] == PreflightPack(packs[i], dst)
    ensures refusals == BootRefusals(dst, packs)
  {
    refusals := [];
    for i := 0 to |outcomes|
      invariant refusals == BootRefusals(dst, packs[..i])
    {
      assert packs[..i + 1][..i] == packs[..i];
      var out := outcomes[i];
      if out.restored || out.code != Some(DevChannelRefused) { continue; }
      if dst.bootCritical.Some? && dst.bootCritical.value(out.pack) {
        refusals := refusals + [DevChannelRefused];
      }
    }
    assert packs[..|outcomes|] == packs;
  }

  // A restore may proceed exactly when nothing stops it; a refused pack does not,
  // unless the destination cannot boot without it.
  lemma MayProceedIff(m: Manifest, dst: Destination)
    ensures FatalOf(m, dst) == [] <==>
      && m.platformSchemaEpoch <= dst.schemaEpoch
      && (forall i :: 0 <= i < |m.assets| ==> !Unresolvable(dst, m.assets[i]))
      && ReachesFull(dst, m)
      && (forall i :: 0 <= i < |m.packs| ==> !Unbootable(dst, m.packs[i]))
  {
    AssetRefusalsEmptyIff(dst, m.assets);
    BootRefusalsEmptyIff(dst, m.packs);
  }

  lemma {:induction false} AssetRefusalsEmptyIff(dst: Destination, assets: seq<AssetEntry>)
    ensures AssetRefusals(dst, assets) == [] <==> forall i :: 0 <= i < |assets| ==> !Unresolvable(dst, assets[i])
  {
    if assets != [] {
      AssetRefusalsEmptyIff(dst, assets[..|assets| - 1]);
      assert forall i :: 0 <= i < |assets| - 1 ==> assets[..|assets| - 1][i] == assets[i];
    }
  }

  lemma {:induction false} BootRefusalsEmptyIff(dst: Destination, packs: seq<PackLock>)
    ensures BootRefusals(dst, packs) == [] <==> forall i :: 0 <= i < |packs| ==> !Unbootable(dst, packs[i])
  {
    if packs != [] {
      BootRefusalsEmptyIff(dst, packs[..|packs| - 1]);
      assert forall i :: 0 <= i < |packs| - 1 ==> packs[..|packs| - 1][i] == packs[i];
    }
  }
}
