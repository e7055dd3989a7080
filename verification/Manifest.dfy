// The archive manifest: its shape, the one validator both the writer and the
// reader apply, and the reading of a manifest document.
module Manifests {
  import opened Wrappers
  import opened Bytes

  // The manifest's closed vocabularies. A word outside one is carried as it
  // stands, so that it can be refused.
  datatype Mode = Full | Incremental | OtherMode(word: string)
  datatype Storage = Embedded | ByReference | Inherited | OtherStorage(word: string)

  // The members of a manifest document that a rule looks at by name.
  datatype Field =
    | CreatedAt | ModeField | WorkspaceId | PlatformSchemaEpoch
    | Packs | Assets | SecretStubs | DataKeyWrap
    | BaseArchive
    | OtherField(name: string)

  const REQUIRED_FIELDS := [
    CreatedAt, ModeField, WorkspaceId, PlatformSchemaEpoch, Packs, Assets, SecretStubs, DataKeyWrap]

  datatype PackLock = PackLock(packId: string, version: string, channel: string, source: string, schemaEpoch: int)
  datatype AssetEntry = AssetEntry(assetRef: string, size: int, contentType: string, storage: Storage)
  datatype SecretStub = SecretStub(stubId: string, wrappedValue: string)
  datatype BaseArchiveRef = BaseArchiveRef(digest: string, createdAt: int)

  datatype Manifest = Manifest(
    createdAt: int,
    mode: Mode,
    baseArchive: Option<BaseArchiveRef>,
    workspaceId: string,
    platformSchemaEpoch: int,
    packs: seq<PackLock>,
    assets: seq<AssetEntry>,
    secretStubs: seq<SecretStub>,
    dataKeyWrap: string)

  // The base-32 symbols of a ULID: digits and capitals but I, L, O and U.
  predicate Crockford(c: char) {
    '0' <= c <= '9' || ('A' <= c <= 'Z' && c != 'I' && c != 'L' && c != 'O' && c != 'U')
  }

  predicate ValidUlid(s: string) {
    |s| == 26 && '0' <= s[0] <= '7' && forall i :: 0 <= i < 26 ==> Crockford(s[i])
  }

  const REF_PREFIX := "sha256:"

  predicate HexDigest(s: string) {
    |s| == 64 && forall i :: 0 <= i < 64 ==> '0' <= s[i] <= '9' || 'a' <= s[i] <= 'f'
  }

  predicate ValidAssetRef(s: string) {
    |s| == 71 && s[..7] == REF_PREFIX && HexDigest(s[7..])
  }

  predicate ValidPack(p: PackLock) {
    p.packId != "" && p.version != "" && p.channel != "" && p.source != "" && p.schemaEpoch > 0
  }

  predicate ValidAsset(a: AssetEntry, mode: Mode) {
    && ValidAssetRef(a.assetRef) && a.size >= 0
    && ( || a.storage == Embedded
         || a.storage == ByReference
         || (a.storage == Inherited && mode == Incremental))
  }

  predicate ValidStub(s: SecretStub) {
    ValidUlid(s.stubId) && s.wrappedValue != ""
  }

  // A full archive names no base; an incremental one names a base by digest.
  // What decides is whether the document carries the member at all.
  predicate ValidMode(m: Manifest, present: set<Field>) {
    if m.mode == Full then BaseArchive !in present
    else
      && m.mode == Incremental
      && BaseArchive in present
      && m.baseArchive.Some? && m.baseArchive.value.digest != ""
  }

  ghost predicate ValidPacks(packs: seq<PackLock>) {
    && (forall i :: 0 <= i < |packs| ==> ValidPack(packs[i]))
    && (forall i, k :: 0 <= i < k < |packs| ==> packs[i].packId != packs[k].packId)
  }

  ghost predicate ValidAssets(assets: seq<AssetEntry>, mode: Mode) {
    && (forall i :: 0 <= i < |assets| ==> ValidAsset(assets[i], mode))
    && (forall i, k :: 0 <= i < k < |assets| ==> assets[i].assetRef != assets[k].assetRef)
  }

  ghost predicate ValidStubs(stubs: seq<SecretStub>) {
    forall i :: 0 <= i < |stubs| ==> ValidStub(stubs[i])
  }

  // Every semantic rule of the manifest group. `present` is the set of member
  // names the document carries.
  ghost predicate ValidManifest(m: Manifest, present: set<Field>) {
    && m.createdAt > 0
    && ValidMode(m, present)
    && ValidUlid(m.workspaceId)
    && m.platformSchemaEpoch > 0
    && ValidPacks(m.packs)
    && ValidAssets(m.assets, m.mode)
    && ValidStubs(m.secretStubs)
    && m.dataKeyWrap != ""
  }

  method ValidateManifest(m: Manifest, present: set<Field>) returns (ok: bool)
    ensures ok <==> ValidManifest(m, present)
  {
    if m.createdAt <= 0 { return false; }
    if !ValidMode(m, present) { return false; }
    if !ValidUlid(m.workspaceId) { return false; }
    if m.platformSchemaEpoch <= 0 { return false; }
    ok := ValidatePacks(m.packs);
    if !ok { return false; }
    ok := ValidateAssets(m.assets, m.mode);
    if !ok { return false; }
    ok := ValidateStubs(m.secretStubs);
    if !ok { return false; }
    return m.dataKeyWrap != "";
  }

  method ValidatePacks(packs: seq<PackLock>) returns (ok: bool)
    ensures ok <==> ValidPacks(packs)
  {
    var seen: set<string> := {};
    for i := 0 to |packs|
      invariant seen == set k | 0 <= k < i :: packs[k].packId
      invariant ValidPacks(packs[..i])
    {
      var p := packs[i];
      if !ValidPack(p) { return false; }
      if p.packId in seen { return false; }
      seen := seen + {p.packId};
    }
    assert packs[..|packs|] == packs;
    return true;
  }

  method ValidateAssets(assets: seq<AssetEntry>, mode: Mode) returns (ok: bool)
    ensures ok <==> ValidAssets(assets, mode)
  {
    var seen: set<string> := {};
    for i := 0 to |assets|
      invariant seen == set k | 0 <= k < i :: assets[k].assetRef
      invariant ValidAssets(assets[..i], mode)
    {
      var a := assets[i];
      if !ValidAsset(a, mode) { return false; }
      if a.assetRef in seen { return false; }
      seen := seen + {a.assetRef};
    }
    assert assets[..|assets|] == assets;
    return true;
  }

  method ValidateStubs(stubs: seq<SecretStub>) returns (ok: bool)
    ensures ok <==> ValidStubs(stubs)
  {
    for i := 0 to |stubs|
      invariant forall k :: 0 <= k < i ==> ValidStub(stubs[k])
    {
      if !ValidStub(stubs[i]) { return false; }
    }
    return true;
  }

  // Encoding and decoding manifest documents. `members` lists the names a
  // document carries, each with whether its value is null; `decode` fills the
  // record. An absent base archive is omitted from the document.
  datatype Codec = Codec(
    render: Manifest -> bytes,
    members: bytes -> Option<map<Field, bool>>,
    decode: bytes -> Option<Manifest>)
  {
    ghost predicate Lawful() {
      forall m {:trigger render(m)} :: members(render(m)) == Some(MembersOf(m)) && decode(render(m)) == Some(m)
    }
  }

  function MembersOf(m: Manifest): map<Field, bool> {
    (map f | f in REQUIRED_FIELDS :: false) + if m.baseArchive.Some? then map[BaseArchive := false] else map[]
  }

  // The manifest a document states, or None for a document that is refused: a
  // required member missing or null, or a rule broken.
  ghost function Parsed(c: Codec, raw: bytes): Option<Manifest> {
    match (c.members(raw), c.decode(raw))
    case (Some(members), Some(m)) =>
      if (forall f :: f in REQUIRED_FIELDS ==> f in members && !members[f]) && ValidManifest(m, members.Keys)
      then Some(m) else None
    case _ => None
  }

  method ParseManifest(c: Codec, raw: bytes) returns (r: Option<Manifest>)
    ensures r == Parsed(c, raw)
  {
    var members := c.members(raw);
    if members.None? { return None; }
    var present := members.value;
    for i := 0 to |REQUIRED_FIELDS|
      invariant forall k :: 0 <= k < i ==> REQUIRED_FIELDS[k] in present && !present[REQUIRED_FIELDS[k]]
    {
      var f := REQUIRED_FIELDS[i];
      assert f in REQUIRED_FIELDS;
      if f !in present || present[f] { return None; }
    }
    var m := c.decode(raw);
    if m.None? { return None; }
    var ok := ValidateManifest(m.value, present.Keys);
    return if ok then m else None;
  }

  // What a document rendered by a writer says of its own members is what its
  // reader will find, so a manifest valid for the writer is read back whole.
  lemma RenderedManifestParses(c: Codec, m: Manifest)
    requires c.Lawful()
    ensures Parsed(c, c.render(m)) == if ValidManifest(m, MembersOf(m).Keys) then Some(m) else None
  {
    var raw := c.render(m);
    assert c.members(raw) == Some(MembersOf(m)) && c.decode(raw) == Some(m);
    assert BaseArchive !in REQUIRED_FIELDS;
  }
}
