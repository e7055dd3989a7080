// The entries an archive body carries: how a writer lists them for a manifest,
// and which lists a reader accepts.
module Entries {
  import opened Wrappers
  import opened Bytes
  import opened Manifests

  const MANIFEST_NAME := "manifest.json"
  const SNAPSHOT_NAME := "workspace.sqlite"
  const ASSET_PREFIX := "assets/"

  datatype Entry = Entry(name: string, body: bytes)

  // ---- Asset entry names ----

  function AssetEntryName(ref: string): string
    requires |ref| >= |REF_PREFIX|
  {
    ASSET_PREFIX + ref[|REF_PREFIX|..]
  }

  function AssetRefFromEntryName(name: string): Option<string> {
    if |name| <= |ASSET_PREFIX| || name[..|ASSET_PREFIX|] != ASSET_PREFIX then None
    else
      var ref := REF_PREFIX + name[|ASSET_PREFIX|..];
      if ValidAssetRef(ref) then Some(ref) else None
  }

  // The two are inverse, and an asset entry is never mistaken for one of the
  // fixed entries.
  lemma EntryNameRoundTrip(ref: string)
    requires ValidAssetRef(ref)
    ensures AssetRefFromEntryName(AssetEntryName(ref)) == Some(ref)
    ensures AssetEntryName(ref) != MANIFEST_NAME && AssetEntryName(ref) != SNAPSHOT_NAME
  {
    var name := AssetEntryName(ref);
    assert name[..|ASSET_PREFIX|] == ASSET_PREFIX;
    assert name[|ASSET_PREFIX|..] == ref[|REF_PREFIX|..];
    assert ref == REF_PREFIX + ref[|REF_PREFIX|..];
    assert name[0] == 'a' && MANIFEST_NAME[0] == 'm' && SNAPSHOT_NAME[0] == 'w';
  }

  lemma RefRoundTrip(name: string)
    requires AssetRefFromEntryName(name).Some?
    ensures AssetEntryName(AssetRefFromEntryName(name).value) == name
  {
    var ref := REF_PREFIX + name[|ASSET_PREFIX|..];
    assert ref[|REF_PREFIX|..] == name[|ASSET_PREFIX|..];
  }

  // ---- Writing ----

  // A stream the caller opens: its bytes and the length declared for it, or None
  // when it cannot be opened.
  type Stream = Option<(bytes, int)>

  datatype Source = Source(
    createdAt: int,
    workspaceId: string,
    platformSchemaEpoch: int,
    packs: seq<PackLock>,
    assets: seq<AssetEntry>,
    secretStubs: seq<SecretStub>,
    baseArchive: Option<BaseArchiveRef>,
    snapshot: Stream,
    asset: Option<string -> Stream>)

  function Assembled(src: Source, wrapped: string): Manifest {
    Manifest(
      src.createdAt,
      if src.baseArchive.Some? then Incremental else Full,
      src.baseArchive,
      src.workspaceId, src.platformSchemaEpoch, src.packs, src.assets, src.secretStubs, wrapped)
  }

  // Assembles and validates the manifest. A manifest comes back only if the
  // document it renders as is one the reader accepts.
  method BuildManifest(src: Source, wrapped: string) returns (r: Option<Manifest>)
    ensures r.Some? <==> Buildable(src, wrapped)
    ensures r.Some? ==> r.value == Assembled(src, wrapped)
  {
    var m := Assembled(src, wrapped);
    var ok := ValidateManifest(m, MembersOf(m).Keys);
    if !ok { return None; }
    for i := 0 to |m.assets|
      invariant forall k :: 0 <= k < i && src.assets[k].storage == Embedded ==> src.asset.Some?
    {
      if m.assets[i].storage == Embedded && src.asset.None? { return None; }
    }
    return Some(m);
  }

  ghost predicate Buildable(src: Source, wrapped: string) {
    var m := Assembled(src, wrapped);
    ValidManifest(m, MembersOf(m).Keys) && Openable(src)
  }

  ghost predicate Openable(src: Source) {
    forall k :: 0 <= k < |src.assets| && src.assets[k].storage == Embedded ==> src.asset.Some?
  }

  function EmbeddedOf(assets: seq<AssetEntry>): seq<AssetEntry> {
    if assets == [] then []
    else
      var rest, a := assets[..|assets| - 1], assets[|assets| - 1];
      EmbeddedOf(rest) + if a.storage == Embedded then [a] else []
  }

  lemma {:induction false} EmbeddedAre(assets: seq<AssetEntry>)
    ensures forall k :: 0 <= k < |EmbeddedOf(assets)| ==>
      EmbeddedOf(assets)[k] in assets && EmbeddedOf(assets)[k].storage == Embedded
    ensures forall k :: 0 <= k < |assets| && assets[k].storage == Embedded ==> assets[k] in EmbeddedOf(assets)
  {
    if assets != [] { EmbeddedAre(assets[..|assets| - 1]); }
  }

  // An opened stream that yields as many bytes as were declared for it.
  predicate Yields(s: Stream) {
    s.Some? && |s.value.0| == s.value.1
  }

  // An embedded asset's stream must also be as long as its manifest row says.
  predicate Carries(src: Source, a: AssetEntry) {
    && src.asset.Some? && Yields(src.asset.value(a.assetRef))
    && src.asset.value(a.assetRef).value.1 == a.size
  }

  predicate AllCarried(src: Source, embedded: seq<AssetEntry>) {
    forall k :: 0 <= k < |embedded| ==> Carries(src, embedded[k])
  }

  predicate RefsValid(assets: seq<AssetEntry>) {
    forall k :: 0 <= k < |assets| ==> ValidAssetRef(assets[k].assetRef)
  }

  function AssetEntries(src: Source, embedded: seq<AssetEntry>): (r: seq<Entry>)
    requires AllCarried(src, embedded) && RefsValid(embedded)
    ensures |r| == |embedded|
  {
    seq(|embedded|, k requires 0 <= k < |embedded| =>
      Entry(AssetEntryName(embedded[k].assetRef), src.asset.value(embedded[k].assetRef).value.0))
  }

  function Fixed(manifestJson: bytes, src: Source): seq<Entry>
    requires src.snapshot.Some?
  {
    [Entry(MANIFEST_NAME, manifestJson), Entry(SNAPSHOT_NAME, src.snapshot.value.0)]
  }

  lemma AssetEntriesAppend(src: Source, embedded: seq<AssetEntry>, a: AssetEntry)
    requires AllCarried(src, embedded) && RefsValid(embedded) && Carries(src, a) && ValidAssetRef(a.assetRef)
    ensures AllCarried(src, embedded + [a]) && RefsValid(embedded + [a])
    ensures AssetEntries(src, embedded + [a]) ==
      AssetEntries(src, embedded) + [Entry(AssetEntryName(a.assetRef), src.asset.value(a.assetRef).value.0)]
  {
  }

  lemma NotAllCarried(src: Source, assets: seq<AssetEntry>, i: nat)
    requires i < |assets| && assets[i].storage == Embedded && !Carries(src, assets[i])
    ensures !AllCarried(src, EmbeddedOf(assets))
  {
    EmbeddedAre(assets);
    var k :| 0 <= k < |EmbeddedOf(assets)| && EmbeddedOf(assets)[k] == assets[i];
  }

  // The body's entries, in order: the manifest, the snapshot, and one entry per
  // embedded asset. None when a stream cannot be opened or breaks its promise.
  method BodyEntries(manifestJson: bytes, m: Manifest, src: Source) returns (r: Option<seq<Entry>>)
    requires src.assets == m.assets && Openable(src)
    requires RefsValid(m.assets)
    ensures r.Some? <==> Yields(src.snapshot) && AllCarried(src, EmbeddedOf(m.assets))
    ensures RefsValid(EmbeddedOf(m.assets))
    ensures r.Some? ==>
      r.value == Fixed(manifestJson, src) + AssetEntries(src, EmbeddedOf(m.assets))
  {
    EmbeddedRefsValid(m.assets);
    var entries := [Entry(MANIFEST_NAME, manifestJson)];
    if src.snapshot.None? || |src.snapshot.value.0| != src.snapshot.value.1 { return None; }
    entries := entries + [Entry(SNAPSHOT_NAME, src.snapshot.value.0)];
    for i := 0 to |m.assets|
      invariant AllCarried(src, EmbeddedOf(m.assets[..i]))
      invariant RefsValid(EmbeddedOf(m.assets[..i]))
      invariant entries == Fixed(manifestJson, src) + AssetEntries(src, EmbeddedOf(m.assets[..i]))
    {
      var a := m.assets[i];
      assert m.assets[..i + 1][..i] == m.assets[..i];
      if a.storage != Embedded { continue; }
      var stream := src.asset.value(a.assetRef);
      if stream.None? || stream.value.1 != a.size || |stream.value.0| != stream.value.1 {
        NotAllCarried(src, m.assets, i);
        return None;
      }
      ghost var before := EmbeddedOf(m.assets[..i]);
      entries := entries + [Entry(AssetEntryName(a.assetRef), stream.value.0)];
      AssetEntriesAppend(src, before, a);
    }
    assert m.assets[..|m.assets|] == m.assets;
    return Some(entries);
  }

  lemma EmbeddedRefsValid(assets: seq<AssetEntry>)
    requires RefsValid(assets)
    ensures RefsValid(EmbeddedOf(assets))
  {
    EmbeddedAre(assets);
  }

  // ---- Reading ----

  // Whether an entry after the first may stand in a body under this manifest: the
  // snapshot, or an asset the manifest declares embedded, whose bytes hash to its
  // reference and are as many as declared.
  ghost predicate Permitted(hash: bytes -> string, m: Manifest, e: Entry) {
    || e.name == SNAPSHOT_NAME
    || exists k :: 0 <= k < |m.assets| && m.assets[k].storage == Embedded && CarriesAsset(hash, m.assets[k], e)
  }

  ghost predicate CarriesAsset(hash: bytes -> string, a: AssetEntry, e: Entry) {
    && AssetRefFromEntryName(e.name) == Some(a.assetRef)
    && REF_PREFIX + hash(e.body) == a.assetRef
    && |e.body| == a.size
  }

  // The streams a reader accepts, and the manifest it reads from each: a valid
  // manifest first, exactly one snapshot, nothing but permitted entries after it,
  // and every asset declared embedded carried at least once.
  ghost predicate WellFormed(c: Codec, hash: bytes -> string, entries: seq<Entry>) {
    && entries != []
    && entries[0].name == MANIFEST_NAME
    && Parsed(c, entries[0].body).Some?
    && var m := Parsed(c, entries[0].body).value;
    && OneSnapshot(entries)
    && AllPermitted(hash, m, entries)
    && (forall k :: 0 <= k < |m.assets| && m.assets[k].storage == Embedded ==>
          CarriedBy(entries, m.assets[k].assetRef))
  }

  ghost predicate AllPermitted(hash: bytes -> string, m: Manifest, entries: seq<Entry>) {
    forall i :: 0 < i < |entries| ==> Permitted(hash, m, entries[i])
  }

  ghost predicate OneSnapshot(entries: seq<Entry>) {
    exists i :: 0 < i < |entries| && entries[i].name == SNAPSHOT_NAME
      && forall k :: 0 < k < |entries| && entries[k].name == SNAPSHOT_NAME ==> k == i
  }

  ghost predicate CarriedBy(entries: seq<Entry>, ref: string) {
    CarriedBefore(entries, |entries|, ref)
  }

  ghost predicate CarriedBefore(entries: seq<Entry>, n: nat, ref: string)
    requires n <= |entries|
  {
    exists i :: 0 < i < n && AssetRefFromEntryName(entries[i].name) == Some(ref)
  }

  ghost predicate HasSnapshot(entries: seq<Entry>) {
    exists i {:trigger entries[i]} :: 0 < i < |entries| && entries[i].name == SNAPSHOT_NAME
  }

  ghost predicate TwoSnapshots(entries: seq<Entry>) {
    exists i, j {:trigger entries[i], entries[j]} ::
      0 < i < j < |entries| && entries[i].name == SNAPSHOT_NAME && entries[j].name == SNAPSHOT_NAME
  }

  // Entries already refused, whatever may follow them.
  ghost predicate Doomed(c: Codec, hash: bytes -> string, entries: seq<Entry>) {
    entries != [] &&
    (|| entries[0].name != MANIFEST_NAME
     || Parsed(c, entries[0].body).None?
     || !AllPermitted(hash, Parsed(c, entries[0].body).value, entries)
     || TwoSnapshots(entries))
  }

  lemma DoomedStays(c: Codec, hash: bytes -> string, entries: seq<Entry>, all: seq<Entry>)
    requires entries <= all && Doomed(c, hash, entries)
    ensures Doomed(c, hash, all)
  {
    if Parsed(c, entries[0].body).Some? && !AllPermitted(hash, Parsed(c, entries[0].body).value, entries) {
      var i :| 0 < i < |entries| && !Permitted(hash, Parsed(c, entries[0].body).value, entries[i]);
      assert !Permitted(hash, Parsed(c, all[0].body).value, all[i]);
    }
    if TwoSnapshots(entries) {
      var i, j :| 0 < i < j < |entries| && entries[i].name == SNAPSHOT_NAME && entries[j].name == SNAPSHOT_NAME;
      assert all[i].name == SNAPSHOT_NAME && all[j].name == SNAPSHOT_NAME;
    }
  }

  // One more entry dooms entries that were not doomed only if it is not permitted
  // or is a second snapshot.
  lemma DoomedByOne(c: Codec, hash: bytes -> string, entries: seq<Entry>, e: Entry)
    requires entries != [] && !Doomed(c, hash, entries)
    ensures Doomed(c, hash, entries + [e]) <==>
      !Permitted(hash, Parsed(c, entries[0].body).value, e) || (e.name == SNAPSHOT_NAME && HasSnapshot(entries))
    ensures HasSnapshot(entries + [e]) <==> HasSnapshot(entries) || e.name == SNAPSHOT_NAME
  {
    var m, all, n := Parsed(c, entries[0].body).value, entries + [e], |entries|;
    assert all[n] == e;
    forall i | 0 <= i < n ensures all[i] == entries[i] { }
    AllPermittedByOne(hash, m, entries, e);
    if e.name == SNAPSHOT_NAME && HasSnapshot(entries) {
      var i :| 0 < i < n && entries[i].name == SNAPSHOT_NAME;
      assert all[i].name == SNAPSHOT_NAME && all[n].name == SNAPSHOT_NAME;
    }
    if HasSnapshot(entries) {
      var i :| 0 < i < n && entries[i].name == SNAPSHOT_NAME;
      assert all[i].name == SNAPSHOT_NAME;
    }
  }

  lemma AllPermittedByOne(hash: bytes -> string, m: Manifest, entries: seq<Entry>, e: Entry)
    requires entries != []
    ensures AllPermitted(hash, m, entries + [e]) <==> AllPermitted(hash, m, entries) && Permitted(hash, m, e)
  {
    var all, n := entries + [e], |entries|;
    assert all[n] == e;
    if AllPermitted(hash, m, all) {
      assert Permitted(hash, m, all[n]);
      forall i | 0 < i < n ensures Permitted(hash, m, entries[i]) { assert Permitted(hash, m, all[i]); }
    }
  }

  // What is left to ask of entries that are not doomed.
  lemma WellFormedIff(c: Codec, hash: bytes -> string, entries: seq<Entry>)
    requires entries != [] && !Doomed(c, hash, entries)
    ensures WellFormed(c, hash, entries) <==>
      var m := Parsed(c, entries[0].body).value;
      && HasSnapshot(entries)
      && forall k :: 0 <= k < |m.assets| && m.assets[k].storage == Embedded ==> CarriedBy(entries, m.assets[k].assetRef)
  {
    SnapshotsCounted(entries);
  }

  lemma SnapshotsCounted(entries: seq<Entry>)
    ensures OneSnapshot(entries) <==> HasSnapshot(entries) && !TwoSnapshots(entries)
  {
    if HasSnapshot(entries) && !TwoSnapshots(entries) {
      var i :| 0 < i < |entries| && entries[i].name == SNAPSHOT_NAME;
      forall k | 0 < k < |entries| && entries[k].name == SNAPSHOT_NAME ensures k == i {
        assert entries[k].name == SNAPSHOT_NAME && entries[i].name == SNAPSHOT_NAME;
      }
    }
  }

  lemma NeverDoomed(c: Codec, hash: bytes -> string, entries: seq<Entry>)
    requires WellFormed(c, hash, entries)
    ensures !Doomed(c, hash, entries)
  {
    SnapshotsCounted(entries);
  }

  lemma CarriedByOne(entries: seq<Entry>, e: Entry, ref: string)
    requires entries != []
    ensures CarriedBy(entries + [e], ref) <==> CarriedBy(entries, ref) || AssetRefFromEntryName(e.name) == Some(ref)
  {
    var all, n := entries + [e], |entries|;
    assert all[n] == e;
    if i :| 0 < i < n && AssetRefFromEntryName(entries[i].name) == Some(ref) { assert all[i] == entries[i]; }
    if i :| 0 < i < |all| && AssetRefFromEntryName(all[i].name) == Some(ref) && i < n { assert all[i] == entries[i]; }
  }

  // The reader's state as it takes one entry after another.
  class EntryChecker {
    const c: Codec
    const hash: bytes -> string

    var entries: seq<Entry>
    var manifest: Option<Manifest>
    var declared: map<string, AssetEntry>
    var seenSnapshot: bool
    var seenAssets: set<string>

    ghost predicate Valid()
      reads this
    {
      && !Doomed(c, hash, entries)
      && (entries == [] ==> !seenSnapshot && seenAssets == {})
      && (entries != [] ==>
            && manifest == Parsed(c, entries[0].body) && Lists(declared, manifest.value.assets)
            && (seenSnapshot <==> HasSnapshot(entries))
            && forall ref {:trigger CarriedBy(entries, ref)} :: CarriedBy(entries, ref) <==> ref in seenAssets)
    }

    constructor (c: Codec, hash: bytes -> string)
      ensures Valid() && entries == [] && this.c == c && this.hash == hash
    {
      this.c, this.hash := c, hash;
      entries, manifest, declared, seenSnapshot, seenAssets := [], None, map[], false, {};
    }

    // Takes the next entry, unless the entries are doomed by it.
    method Take(e: Entry) returns (ok: bool)
      requires Valid()
      modifies this
      ensures ok <==> !Doomed(c, hash, old(entries) + [e])
      ensures ok ==> Valid() && entries == old(entries) + [e]
    {
      if entries == [] {
        ok := TakeFirst(e);
      } else {
        ok := TakeLater(e);
      }
    }

    method TakeFirst(e: Entry) returns (ok: bool)
      requires Valid() && entries == []
      modifies this
      ensures ok <==> !Doomed(c, hash, [e])
      ensures ok ==> Valid() && entries == [e]
    {
      if e.name != MANIFEST_NAME { return false; }
      manifest := ParseManifest(c, e.body);
      if manifest.None? { return false; }
      assert ValidManifest(manifest.value, c.members(e.body).value.Keys);
      declared := Declared(manifest.value.assets);
      entries := [e];
      return true;
    }

    method TakeLater(e: Entry) returns (ok: bool)
      requires Valid() && entries != []
      modifies this`entries, this`seenSnapshot, this`seenAssets
      ensures ok <==> !Doomed(c, hash, old(entries) + [e])
      ensures ok ==> Valid() && entries == old(entries) + [e]
    {
      DoomedByOne(c, hash, entries, e);
      forall ref
        ensures CarriedBy(entries + [e], ref) <==> CarriedBy(entries, ref) || AssetRefFromEntryName(e.name) == Some(ref)
      {
        CarriedByOne(entries, e, ref);
      }
      var kind := Classify(hash, manifest.value, declared, e);
      match kind {
        case Refused => return false;
        case Snapshot =>
          if seenSnapshot { return false; }
          seenSnapshot := true;
        case Asset(ref) =>
          seenAssets := seenAssets + {ref};
      }
      entries := entries + [e];
      return true;
    }

    // The end of the archive: what must have been seen by then.
    method Conclude() returns (r: Option<Manifest>)
      requires Valid()
      ensures r == if WellFormed(c, hash, entries) then Parsed(c, entries[0].body) else None
    {
      if |entries| == 0 { return None; }
      WellFormedIff(c, hash, entries);
      if !seenSnapshot { return None; }
      var complete := AllEmbeddedSeen(manifest.value.assets, seenAssets);
      return if complete then manifest else None;
    }
  }

  method AllEmbeddedSeen(assets: seq<AssetEntry>, seen: set<string>) returns (ok: bool)
    ensures ok <==> forall k :: 0 <= k < |assets| && assets[k].storage == Embedded ==> assets[k].assetRef in seen
  {
    for k := 0 to |assets|
      invariant forall l :: 0 <= l < k && assets[l].storage == Embedded ==> assets[l].assetRef in seen
    {
      if assets[k].storage == Embedded && assets[k].assetRef !in seen { return false; }
    }
    return true;
  }

  datatype Kind = Refused | Snapshot | Asset(ref: string)

  // What one entry after the manifest is.
  method Classify(hash: bytes -> string, m: Manifest, declared: map<string, AssetEntry>, e: Entry) returns (kind: Kind)
    requires Lists(declared, m.assets)
    ensures kind == Refused <==> !Permitted(hash, m, e)
    ensures kind == Snapshot <==> e.name == SNAPSHOT_NAME
    ensures kind.Asset? ==> AssetRefFromEntryName(e.name) == Some(kind.ref)
    ensures kind == Snapshot ==> AssetRefFromEntryName(e.name) == None
  {
    AssetNameIsNotFixed(e.name);
    if e.name == MANIFEST_NAME { return Refused; }
    if e.name == SNAPSHOT_NAME { return Snapshot; }
    var ref := AssetRefFromEntryName(e.name);
    if ref.None? || ref.value !in declared { return Refused; }
    var a := declared[ref.value];
    if a.storage != Embedded || REF_PREFIX + hash(e.body) != ref.value || |e.body| != a.size {
      return Refused;
    }
    return Asset(ref.value);
  }

  ghost predicate Lists(declared: map<string, AssetEntry>, assets: seq<AssetEntry>) {
    && (forall ref :: ref in declared ==>
      exists k :: 0 <= k < |assets| && assets[k] == declared[ref] && assets[k].assetRef == ref)
    && (forall k :: 0 <= k < |assets| ==> assets[k].assetRef in declared && declared[assets[k].assetRef] == assets[k])
  }

  // The manifest's rows by reference. A valid manifest repeats none.
  method Declared(assets: seq<AssetEntry>) returns (declared: map<string, AssetEntry>)
    requires forall i, k :: 0 <= i < k < |assets| ==> assets[i].assetRef != assets[k].assetRef
    ensures Lists(declared, assets)
  {
    declared := map[];
    for i := 0 to |assets|
      invariant forall ref :: ref in declared ==>
        exists k :: 0 <= k < i && assets[k] == declared[ref] && assets[k].assetRef == ref
      invariant forall k :: 0 <= k < i ==> assets[k].assetRef in declared && declared[assets[k].assetRef] == assets[k]
    {
      declared := declared[assets[i].assetRef := assets[i]];
    }
  }

  lemma AssetNameIsNotFixed(name: string)
    ensures name == MANIFEST_NAME || name == SNAPSHOT_NAME ==> AssetRefFromEntryName(name) == None
  {
    assert MANIFEST_NAME[..|ASSET_PREFIX|][0] != ASSET_PREFIX[0];
    assert SNAPSHOT_NAME[..|ASSET_PREFIX|][0] != ASSET_PREFIX[0];
  }

  // ---- How the two meet ----

  // The names of the entries after the first two are their assets'.
  ghost predicate NamedByAsset(entries: seq<Entry>, src: Source, embedded: seq<AssetEntry>) {
    && AllCarried(src, embedded) && |entries| == |embedded| + 2
    && entries[0].name == MANIFEST_NAME && entries[1].name == SNAPSHOT_NAME
    && forall k {:trigger embedded[k]} :: 0 <= k < |embedded| ==>
         && AssetRefFromEntryName(entries[k + 2].name) == Some(embedded[k].assetRef)
         && entries[k + 2].name != SNAPSHOT_NAME
         && entries[k + 2].body == ContentOf(src, embedded[k])
  }

  lemma WrittenNames(raw: bytes, src: Source, embedded: seq<AssetEntry>)
    requires src.snapshot.Some? && AllCarried(src, embedded) && RefsValid(embedded)
    ensures NamedByAsset(Fixed(raw, src) + AssetEntries(src, embedded), src, embedded)
  {
    forall k | 0 <= k < |embedded|
      ensures AssetRefFromEntryName(AssetEntryName(embedded[k].assetRef)) == Some(embedded[k].assetRef)
      ensures AssetEntryName(embedded[k].assetRef) != SNAPSHOT_NAME
    {
      EntryNameRoundTrip(embedded[k].assetRef);
    }
  }

  // Named so, an entry is permitted exactly when its bytes hash to its reference.
  lemma PermittedIffAddressed(
    hash: bytes -> string, m: Manifest, entries: seq<Entry>, src: Source, embedded: seq<AssetEntry>, k: nat)
    requires NamedByAsset(entries, src, embedded) && k < |embedded|
    requires embedded[k].storage == Embedded && embedded[k] in m.assets
    ensures Permitted(hash, m, entries[k + 2]) <==>
      REF_PREFIX + hash(ContentOf(src, embedded[k])) == embedded[k].assetRef
  {
    var e := entries[k + 2];
    if REF_PREFIX + hash(ContentOf(src, embedded[k])) == embedded[k].assetRef {
      var i :| 0 <= i < |m.assets| && m.assets[i] == embedded[k];
      assert CarriesAsset(hash, m.assets[i], e);
    }
  }

  lemma SnapshotIsSecond(entries: seq<Entry>, src: Source, embedded: seq<AssetEntry>)
    requires NamedByAsset(entries, src, embedded)
    ensures OneSnapshot(entries)
  {
    forall i | 2 <= i < |entries| ensures entries[i].name != SNAPSHOT_NAME {
      var a := embedded[i - 2];
      assert entries[i - 2 + 2] == entries[i];
    }
    assert entries[1].name == SNAPSHOT_NAME;
    assert forall k :: 0 < k < |entries| && entries[k].name == SNAPSHOT_NAME ==> k == 1;
  }

  lemma AllPermittedIff(hash: bytes -> string, m: Manifest, entries: seq<Entry>, src: Source)
    requires src.assets == m.assets && NamedByAsset(entries, src, EmbeddedOf(src.assets))
    ensures AllPermitted(hash, m, entries) <==> Addressed(hash, src)
  {
    var embedded := EmbeddedOf(src.assets);
    EmbeddedAre(src.assets);
    forall k | 0 <= k < |embedded|
      ensures Permitted(hash, m, entries[k + 2]) <==>
        REF_PREFIX + hash(ContentOf(src, embedded[k])) == embedded[k].assetRef
    {
      PermittedIffAddressed(hash, m, entries, src, embedded, k);
    }
    if Addressed(hash, src) {
      forall i | 0 < i < |entries| ensures Permitted(hash, m, entries[i]) {
        if i > 1 { PermittedIffAddressed(hash, m, entries, src, embedded, i - 2); }
      }
    }
    if AllPermitted(hash, m, entries) {
      forall k | 0 <= k < |embedded| ensures REF_PREFIX + hash(ContentOf(src, embedded[k])) == embedded[k].assetRef {
        assert Permitted(hash, m, entries[k + 2]);
      }
    }
  }

  lemma DeclaredAreCarried(entries: seq<Entry>, src: Source, k: nat)
    requires NamedByAsset(entries, src, EmbeddedOf(src.assets))
    requires k < |src.assets| && src.assets[k].storage == Embedded
    ensures CarriedBy(entries, src.assets[k].assetRef)
  {
    var embedded := EmbeddedOf(src.assets);
    EmbeddedAre(src.assets);
    var e :| 0 <= e < |embedded| && embedded[e] == src.assets[k];
    assert AssetRefFromEntryName(entries[e + 2].name) == Some(src.assets[k].assetRef);
  }

  // A writer does not hash what it embeds, so what it writes is accepted by a
  // reader exactly when every embedded asset's bytes hash to the reference they
  // are declared under; and then the reader finds the writer's own manifest.
  lemma WrittenEntriesAreRead(c: Codec, hash: bytes -> string, src: Source, wrapped: string)
    requires c.Lawful() && Buildable(src, wrapped)
    requires Yields(src.snapshot) && RefsValid(src.assets) && RefsValid(EmbeddedOf(src.assets))
    requires AllCarried(src, EmbeddedOf(src.assets))
    ensures var m := Assembled(src, wrapped);
      var entries := Fixed(c.render(m), src) + AssetEntries(src, EmbeddedOf(src.assets));
      && Parsed(c, entries[0].body) == Some(m)
      && (WellFormed(c, hash, entries) <==> Addressed(hash, src))
  {
    var m := Assembled(src, wrapped);
    var entries := Fixed(c.render(m), src) + AssetEntries(src, EmbeddedOf(src.assets));
    RenderedManifestParses(c, m);
    WrittenNames(c.render(m), src, EmbeddedOf(src.assets));
    SnapshotIsSecond(entries, src, EmbeddedOf(src.assets));
    AllPermittedIff(hash, m, entries, src);
    forall k | 0 <= k < |m.assets| && m.assets[k].storage == Embedded
      ensures CarriedBy(entries, m.assets[k].assetRef)
    {
      DeclaredAreCarried(entries, src, k);
    }
  }

  // The source's asset store is content-addressed: each embedded asset's bytes
  // hash to the reference that names them.
  ghost predicate Addressed(hash: bytes -> string, src: Source)
    requires AllCarried(src, EmbeddedOf(src.assets))
  {
    forall k :: 0 <= k < |EmbeddedOf(src.assets)| ==>
      REF_PREFIX + hash(ContentOf(src, EmbeddedOf(src.assets)[k])) == EmbeddedOf(src.assets)[k].assetRef
  }

  function ContentOf(src: Source, a: AssetEntry): bytes
    requires Carries(src, a)
  {
    src.asset.value(a.assetRef).value.0
  }

  // The assets an accepted stream carries are exactly those its manifest declares
  // embedded, and each entry holds bytes that are what its name says.
  lemma AcceptedStreamCarriesTheDeclared(c: Codec, hash: bytes -> string, entries: seq<Entry>)
    requires WellFormed(c, hash, entries)
    ensures var m := Parsed(c, entries[0].body).value;
      && (forall ref :: CarriedBy(entries, ref) <==>
            exists k :: 0 <= k < |m.assets| && m.assets[k].storage == Embedded && m.assets[k].assetRef == ref)
      && (forall i :: 0 < i < |entries| && entries[i].name != SNAPSHOT_NAME ==>
            entries[i].name == AssetEntryNameOf(REF_PREFIX + hash(entries[i].body)))
  {
    var m := Parsed(c, entries[0].body).value;
    forall ref | CarriedBy(entries, ref)
      ensures exists k :: 0 <= k < |m.assets| && m.assets[k].storage == Embedded && m.assets[k].assetRef == ref
    {
      var i :| 0 < i < |entries| && AssetRefFromEntryName(entries[i].name) == Some(ref);
      AssetNameIsNotFixed(entries[i].name);
      assert Permitted(hash, m, entries[i]);
    }
    forall i | 0 < i < |entries| && entries[i].name != SNAPSHOT_NAME
      ensures entries[i].name == AssetEntryNameOf(REF_PREFIX + hash(entries[i].body))
    {
      assert Permitted(hash, m, entries[i]);
      RefRoundTrip(entries[i].name);
    }
  }

  function AssetEntryNameOf(ref: string): string {
    if |ref| >= |REF_PREFIX| then AssetEntryName(ref) else ASSET_PREFIX
  }
}
