// The two phases of an export, and the reader its files must satisfy.
module CastExchange {
  import opened Wrappers
  import opened Bytes
  import opened CastBundles

  datatype Kind = NotABundle | WrongFormat | Damaged | TooLarge | AssetMismatch | Incomplete | EncodeFailed

  function TrimHash(ref: string): string {
    if HASH_PREFIX <= ref then ref[|HASH_PREFIX|..] else ref
  }

  function EntryNameOf(ref: string): string {
    ASSET_PREFIX + TrimHash(ref)
  }

  // ---- Planning: every refusal ----

  datatype Planned = Planned(name: string, body: bytes)

  datatype Plan = Plan(manifest: bytes, entries: seq<Planned>)

  predicate AllHeld(refs: seq<string>, assets: map<string, bytes>) {
    forall i :: 0 <= i < |refs| ==> refs[i] in assets
  }

  function Listed(refs: seq<string>, assets: map<string, bytes>): seq<AssetEntry>
    requires AllHeld(refs, assets)
  {
    seq(|refs|, i requires 0 <= i < |refs| => AssetEntry(refs[i], |assets[refs[i]]|))
  }

  function PlannedOf(refs: seq<string>, assets: map<string, bytes>): seq<Planned>
    requires AllHeld(refs, assets)
  {
    seq(|refs|, i requires 0 <= i < |refs| => Planned(EntryNameOf(refs[i]), assets[refs[i]]))
  }

  function ManifestOf(m: Manifest, refs: seq<string>, assets: map<string, bytes>): Manifest
    requires AllHeld(refs, assets)
  {
    m.(format := FORMAT, assets := Listed(refs, assets))
  }

  function ContentBytes(refs: seq<string>, assets: map<string, bytes>): nat
    requires AllHeld(refs, assets)
  {
    if refs == [] then 0
    else ContentBytes(refs[..|refs| - 1], assets) + |assets[refs[|refs| - 1]]|
  }

  // Every reference is held, and none over the per-entry limit.
  predicate Collectable(refs: seq<string>, assets: map<string, bytes>) {
    AllHeld(refs, assets) && forall i :: 0 <= i < |refs| ==> |assets[refs[i]]| <= MAX_ASSET_BYTES
  }

  // Everything an export depends on; the room the manifest and framing need is
  // not among it.
  predicate Exportable<Raw(!new)>(f: Codec<Raw>, m: Manifest, refs: seq<string>, assets: map<string, bytes>) {
    && |refs| <= MAX_ASSETS && Collectable(refs, assets)
    && ContentBytes(refs, assets) <= MAX_CONTENT_BYTES
    && f.encode(ManifestOf(m, refs, assets)).Some?
    && |f.encode(ManifestOf(m, refs, assets)).value| <= MAX_MANIFEST_BYTES
  }

  // The first reference that cannot be collected is the i-th.
  ghost predicate FirstRefused(refs: seq<string>, assets: map<string, bytes>, i: nat) {
    && i < |refs| && Collectable(refs[..i], assets)
    && (refs[i] in assets ==> |assets[refs[i]]| > MAX_ASSET_BYTES)
  }

  // It is missing, or it is too large.
  ghost predicate Missing(refs: seq<string>, assets: map<string, bytes>) {
    exists i: nat :: FirstRefused(refs, assets, i) && refs[i] !in assets
  }

  ghost predicate Oversized(refs: seq<string>, assets: map<string, bytes>) {
    exists i: nat :: FirstRefused(refs, assets, i) && refs[i] in assets
  }

  // No two references are the first refused, and none is when all can be collected.
  lemma OneIsFirst(refs: seq<string>, assets: map<string, bytes>, i: nat)
    requires FirstRefused(refs, assets, i)
    ensures !Collectable(refs, assets)
    ensures forall k: nat :: FirstRefused(refs, assets, k) ==> k == i
  {
  }

  method Collect(refs: seq<string>, assets: map<string, bytes>)
    returns (r: Result<(seq<AssetEntry>, seq<Planned>, nat), Kind>)
    ensures r.Ok? <==> Collectable(refs, assets)
    ensures r.Ok? ==> r.value == (Listed(refs, assets), PlannedOf(refs, assets), ContentBytes(refs, assets))
    ensures r.Err? ==> r.error == Incomplete || r.error == TooLarge
    ensures r == Err(Incomplete) <==> Missing(refs, assets)
    ensures r == Err(TooLarge) <==> Oversized(refs, assets)
  {
    var listed: seq<AssetEntry>, planned: seq<Planned>, content := [], [], 0;
    for i := 0 to |refs|
      invariant Collectable(refs[..i], assets)
      invariant listed == Listed(refs[..i], assets) && planned == PlannedOf(refs[..i], assets)
      invariant content == ContentBytes(refs[..i], assets)
    {
      if refs[i] !in assets || |assets[refs[i]]| > MAX_ASSET_BYTES { OneIsFirst(refs, assets, i); }
      if refs[i] !in assets { return Err(Incomplete); }
      var body := assets[refs[i]];
      if |body| > MAX_ASSET_BYTES { return Err(TooLarge); }
      assert refs[..i + 1][..i] == refs[..i];
      content := content + |body|;
      listed := listed + [AssetEntry(refs[i], |body|)];
      planned := planned + [Planned(EntryNameOf(refs[i]), body)];
    }
    assert refs[..|refs|] == refs;
    forall i: nat ensures !FirstRefused(refs, assets, i) {
      if FirstRefused(refs, assets, i) { OneIsFirst(refs, assets, i); }
    }
    return Ok((listed, planned, content));
  }

  // The refusal for want of room never fires: the plan exists exactly when the
  // other conditions hold, and the first of them to fail, in this order, is the
  // one refused for.
  method NewPlan<Raw(!new)>(f: Codec<Raw>, m: Manifest, assets: map<string, bytes>)
    returns (r: Result<Plan, Kind>, refs: seq<string>)
    ensures AreReferences(refs, m.cast.slides)
    ensures r.Ok? <==> Exportable(f, m, refs, assets)
    ensures r.Ok? ==> r.value == Plan(f.encode(ManifestOf(m, refs, assets)).value, PlannedOf(refs, assets))
    ensures r.Err? ==> r.error in {TooLarge, Incomplete, EncodeFailed}
    ensures r == Err(Incomplete) <==> |refs| <= MAX_ASSETS && Missing(refs, assets)
    ensures r == Err(EncodeFailed) <==>
      && |refs| <= MAX_ASSETS && Collectable(refs, assets) && ContentBytes(refs, assets) <= MAX_CONTENT_BYTES
      && f.encode(ManifestOf(m, refs, assets)).None?
    ensures r == Err(TooLarge) <==>
      || |refs| > MAX_ASSETS || Oversized(refs, assets)
      || (&& Collectable(refs, assets)
          && (|| ContentBytes(refs, assets) > MAX_CONTENT_BYTES
              || (&& f.encode(ManifestOf(m, refs, assets)).Some?
                  && |f.encode(ManifestOf(m, refs, assets)).value| > MAX_MANIFEST_BYTES)))
  {
    refs := ReferencedAssets(m.cast.slides);
    if |refs| > MAX_ASSETS { return Err(TooLarge), refs; }
    var collected := Collect(refs, assets);
    if collected.Err? { return Err(collected.error), refs; }
    var (listed, planned, content) := collected.value;
    if content > MAX_CONTENT_BYTES { return Err(TooLarge), refs; }
    var manifest := f.encode(m.(format := FORMAT, assets := listed));
    if manifest.None? { return Err(EncodeFailed), refs; }
    if |manifest.value| > MAX_MANIFEST_BYTES { return Err(TooLarge), refs; }
    if |manifest.value| + ZipFramingBytesFor(|listed|) > MAX_OVERHEAD_BYTES { return Err(TooLarge), refs; }
    return Ok(Plan(manifest.value, planned)), refs;
  }

  // ---- Streaming: nothing left to refuse ----

  function EntriesOf(p: Plan): seq<Entry> {
    [Entry(MANIFEST_NAME, p.manifest, true)]
    + seq(|p.entries|, i requires 0 <= i < |p.entries| => Entry(p.entries[i].name, p.entries[i].body, false))
  }

  method Stream<Raw(!new)>(f: Codec<Raw>, p: Plan) returns (raw: Raw)
    ensures raw == f.zip(EntriesOf(p))
  {
    var written := [Entry(MANIFEST_NAME, p.manifest, true)];
    for i := 0 to |p.entries|
      invariant written == EntriesOf(p)[..i + 1]
    {
      written := written + [Entry(p.entries[i].name, p.entries[i].body, false)];
    }
    assert EntriesOf(p)[..|p.entries| + 1] == EntriesOf(p);
    return f.zip(written);
  }

  // ---- Reading ----

  datatype Bundle = Bundle(manifest: Manifest, assets: map<string, bytes>)

  predicate IsDirectory(name: string) {
    name != "" && name[|name| - 1] == '/'
  }

  // The declared sizes so far, as a 64-bit sum.
  function RunningTotal(files: seq<ZipFile>): int {
    if files == [] then 0
    else
      var last, before := files[|files| - 1], RunningTotal(files[..|files| - 1]);
      if IsDirectory(last.name) then before else Wrap64(before + Wrap64(last.declared))
  }

  predicate WithinTotal(files: seq<ZipFile>) {
    forall k :: 0 <= k <= |files| ==> RunningTotal(files[..k]) <= MAX_BUNDLE_BYTES
  }

  predicate Recognized(files: seq<ZipFile>) {
    forall i :: 0 <= i < |files| ==>
      IsDirectory(files[i].name) || files[i].name == MANIFEST_NAME || ASSET_PREFIX <= files[i].name
  }

  // Of entries of one name the last counts.
  function LastManifest(files: seq<ZipFile>): Option<ZipFile> {
    if files == [] then None
    else if files[|files| - 1].name == MANIFEST_NAME then Some(files[|files| - 1])
    else LastManifest(files[..|files| - 1])
  }

  predicate IsAsset(f: ZipFile) {
    !IsDirectory(f.name) && f.name != MANIFEST_NAME && ASSET_PREFIX <= f.name
  }

  function AssetFiles(files: seq<ZipFile>): map<string, ZipFile> {
    if files == [] then map[]
    else
      var last, before := files[|files| - 1], AssetFiles(files[..|files| - 1]);
      if IsAsset(last) then before[last.name := last] else before
  }

  // Bounded by what is read, not by what the header declares.
  function ReadEntry(f: ZipFile, limit: nat): Option<bytes> {
    if f.content.None? || |f.content.value| > limit then None else f.content
  }

  // What one more file does to each.
  lemma ScanStep(files: seq<ZipFile>, i: nat)
    requires i < |files|
    ensures var f, before, after := files[i], files[..i], files[..i + 1];
      && RunningTotal(after) ==
           (if IsDirectory(f.name) then RunningTotal(before) else Wrap64(RunningTotal(before) + Wrap64(f.declared)))
      && LastManifest(after) == (if f.name == MANIFEST_NAME then Some(f) else LastManifest(before))
      && AssetFiles(after) == (if IsAsset(f) then AssetFiles(before)[f.name := f] else AssetFiles(before))
  {
    var after := files[..i + 1];
    assert after[..|after| - 1] == files[..i] && after[|after| - 1] == files[i];
  }

  predicate Passed(files: seq<ZipFile>, i: nat)
    requires i <= |files|
  {
    && (forall k {:trigger files[..k]} :: 0 <= k <= i ==> RunningTotal(files[..k]) <= MAX_BUNDLE_BYTES)
    && forall k {:trigger files[k]} :: 0 <= k < i ==>
         IsDirectory(files[k].name) || files[k].name == MANIFEST_NAME || ASSET_PREFIX <= files[k].name
  }

  method ScanFiles(files: seq<ZipFile>) returns (r: Result<(Option<ZipFile>, map<string, ZipFile>), Kind>)
    ensures r.Ok? <==> WithinTotal(files) && Recognized(files)
    ensures r == Err(TooLarge) ==> !WithinTotal(files)
    ensures r.Err? && r.error != TooLarge ==> r.error == NotABundle && !Recognized(files)
    ensures r.Ok? ==> r.value == (LastManifest(files), AssetFiles(files))
  {
    var manifest: Option<ZipFile> := None;
    var assets: map<string, ZipFile> := map[];
    var total: int := 0;
    for i := 0 to |files|
      invariant Passed(files, i)
      invariant total == RunningTotal(files[..i]) && manifest == LastManifest(files[..i]) &&
        assets == AssetFiles(files[..i])
    {
      var f := files[i];
      ScanStep(files, i);
      if IsDirectory(f.name) { continue; }
      total := Wrap64(total + Wrap64(f.declared));
      if total > MAX_BUNDLE_BYTES { return Err(TooLarge); }
      if f.name == MANIFEST_NAME {
        manifest := Some(f);
      } else if ASSET_PREFIX <= f.name {
        assets := assets[f.name := f];
      } else {
        return Err(NotABundle);
      }
    }
    assert files[..|files|] == files;
    return Ok((manifest, assets));
  }

  // ---- The declared assets against the carried ones ----

  predicate Carries<Raw(!new)>(f: Codec<Raw>, a: AssetEntry, files: map<string, ZipFile>) {
    && EntryNameOf(a.assetRef) in files
    && var body := ReadEntry(files[EntryNameOf(a.assetRef)], MAX_ASSET_BYTES);
       body.Some? && f.RefOf(body.value) == a.assetRef
  }

  ghost predicate NamesDistinct(entries: seq<AssetEntry>) {
    forall i, j :: 0 <= i < j < |entries| ==> EntryNameOf(entries[i].assetRef) != EntryNameOf(entries[j].assetRef)
  }

  ghost predicate AllCarried<Raw(!new)>(f: Codec<Raw>, entries: seq<AssetEntry>, files: map<string, ZipFile>) {
    NamesDistinct(entries) && forall i :: 0 <= i < |entries| ==> Carries(f, entries[i], files)
  }

  ghost predicate NoneUndeclared(entries: seq<AssetEntry>, files: map<string, ZipFile>) {
    forall name :: name in files ==> exists i :: 0 <= i < |entries| && EntryNameOf(entries[i].assetRef) == name
  }

  function BodyOf(a: AssetEntry, files: map<string, ZipFile>): bytes {
    var name := EntryNameOf(a.assetRef);
    if name in files && ReadEntry(files[name], MAX_ASSET_BYTES).Some?
      then ReadEntry(files[name], MAX_ASSET_BYTES).value else []
  }

  // The bodies keyed by reference.
  function Delivered(entries: seq<AssetEntry>, files: map<string, ZipFile>): map<string, bytes> {
    if entries == [] then map[]
    else
      var last := entries[|entries| - 1];
      Delivered(entries[..|entries| - 1], files)[last.assetRef := BodyOf(last, files)]
  }

  ghost predicate Declares(entries: seq<AssetEntry>, ref: string) {
    exists i {:trigger entries[i]} :: 0 <= i < |entries| && entries[i].assetRef == ref
  }

  lemma DeclaresLast(entries: seq<AssetEntry>, ref: string)
    requires entries != []
    ensures Declares(entries, ref) <==>
      Declares(entries[..|entries| - 1], ref) || entries[|entries| - 1].assetRef == ref
  {
    var n := |entries| - 1;
    if i :| 0 <= i < n && entries[..n][i].assetRef == ref { assert entries[i].assetRef == ref; }
    if i :| 0 <= i < |entries| && entries[i].assetRef == ref && i < n { assert entries[..n][i].assetRef == ref; }
  }

  lemma {:induction false} DeliveredKeys(entries: seq<AssetEntry>, files: map<string, ZipFile>, ref: string)
    ensures ref in Delivered(entries, files) <==> Declares(entries, ref)
  {
    if entries != [] {
      DeliveredKeys(entries[..|entries| - 1], files, ref);
      DeclaresLast(entries, ref);
    }
  }

  lemma {:induction false} DeliveredBody(entries: seq<AssetEntry>, files: map<string, ZipFile>, i: nat)
    requires i < |entries|
    ensures entries[i].assetRef in Delivered(entries, files)
    ensures Delivered(entries, files)[entries[i].assetRef] == BodyOf(entries[i], files)
    decreases |entries|
  {
    var n := |entries| - 1;
    if i < n {
      DeliveredBody(entries[..n], files, i);
      assert entries[i].assetRef == entries[n].assetRef ==> BodyOf(entries[i], files) == BodyOf(entries[n], files);
    }
  }

  lemma DeliveredHolds(entries: seq<AssetEntry>, files: map<string, ZipFile>)
    ensures forall ref :: ref in Delivered(entries, files) <==> Declares(entries, ref)
    ensures forall i :: 0 <= i < |entries| ==>
      entries[i].assetRef in Delivered(entries, files) &&
        Delivered(entries, files)[entries[i].assetRef] == BodyOf(entries[i], files)
  {
    forall ref ensures ref in Delivered(entries, files) <==> Declares(entries, ref) {
      DeliveredKeys(entries, files, ref);
    }
    forall i | 0 <= i < |entries|
      ensures entries[i].assetRef in Delivered(entries, files)
      ensures Delivered(entries, files)[entries[i].assetRef] == BodyOf(entries[i], files)
    {
      DeliveredBody(entries, files, i);
    }
  }

  // The entries before i, taken out of what is left to be claimed.
  ghost predicate LeftAfter(left: map<string, ZipFile>, entries: seq<AssetEntry>, i: nat, files: map<string, ZipFile>)
    requires i <= |entries|
  {
    && (forall name :: name in left <==> name in files && !NamedBefore(entries, i, name))
    && forall name :: name in left ==> left[name] == files[name]
  }

  ghost predicate NamedBefore(entries: seq<AssetEntry>, i: nat, name: string)
    requires i <= |entries|
  {
    exists k {:trigger entries[k]} :: 0 <= k < i && EntryNameOf(entries[k].assetRef) == name
  }

  lemma CarriedNext<Raw(!new)>(f: Codec<Raw>, entries: seq<AssetEntry>, i: nat, files: map<string, ZipFile>)
    requires i < |entries| && AllCarried(f, entries[..i], files)
    requires !NamedBefore(entries, i, EntryNameOf(entries[i].assetRef)) && Carries(f, entries[i], files)
    ensures AllCarried(f, entries[..i + 1], files)
  {
    var here := entries[..i + 1];
    forall k | 0 <= k < |here| ensures Carries(f, here[k], files) {
      if k < i { assert here[k] == entries[..i][k]; }
    }
    forall k, l | 0 <= k < l < |here| ensures EntryNameOf(here[k].assetRef) != EntryNameOf(here[l].assetRef) {
      if l < i {
        assert here[k] == entries[..i][k] && here[l] == entries[..i][l];
      } else {
        assert here[k] == entries[k];
      }
    }
  }

  lemma LeftNext(left: map<string, ZipFile>, entries: seq<AssetEntry>, i: nat, files: map<string, ZipFile>)
    requires i < |entries| && LeftAfter(left, entries, i, files)
    ensures LeftAfter(left - {EntryNameOf(entries[i].assetRef)}, entries, i + 1, files)
  {
    var name := EntryNameOf(entries[i].assetRef);
    forall other ensures NamedBefore(entries, i + 1, other) <==> NamedBefore(entries, i, other) || other == name {
      if other == name { assert EntryNameOf(entries[i].assetRef) == other; }
    }
  }

  lemma NotClaimable<Raw(!new)>(
    f: Codec<Raw>, left: map<string, ZipFile>, entries: seq<AssetEntry>, i: nat, files: map<string, ZipFile>)
    requires i < |entries| && LeftAfter(left, entries, i, files)
    requires EntryNameOf(entries[i].assetRef) !in left || !Carries(f, entries[i], files)
    ensures !AllCarried(f, entries, files)
  {
    var name := EntryNameOf(entries[i].assetRef);
    if name in files && name !in left {
      var k :| 0 <= k < i && EntryNameOf(entries[k].assetRef) == name;
    }
  }

  method ReadAssets<Raw(!new)>(f: Codec<Raw>, entries: seq<AssetEntry>, files: map<string, ZipFile>)
    returns (r: Result<map<string, bytes>, Kind>)
    ensures r.Ok? <==> AllCarried(f, entries, files) && NoneUndeclared(entries, files)
    ensures r.Ok? ==> r.value == Delivered(entries, files)
    ensures r.Err? ==> r.error in {Damaged, AssetMismatch, NotABundle}
    ensures r == Err(NotABundle) ==> !NoneUndeclared(entries, files)
  {
    var assets: map<string, bytes> := map[];
    var left := files;
    for i := 0 to |entries|
      invariant AllCarried(f, entries[..i], files) && LeftAfter(left, entries, i, files)
      invariant assets == Delivered(entries[..i], files)
    {
      assert entries[..i + 1][..i] == entries[..i];
      var name := EntryNameOf(entries[i].assetRef);
      if name !in left || !Carries(f, entries[i], files) { NotClaimable(f, left, entries, i, files); }
      else { CarriedNext(f, entries, i, files); }
      LeftNext(left, entries, i, files);
      if name !in left { return Err(Damaged); }
      var body := ReadEntry(left[name], MAX_ASSET_BYTES);
      left := left - {name};
      if body.None? { return Err(Damaged); }
      if f.RefOf(body.value) != entries[i].assetRef { return Err(AssetMismatch); }
      assets := assets[entries[i].assetRef := body.value];
    }
    assert entries[..|entries|] == entries;
    NothingLeft(left, entries, files);
    if |left| != 0 { return Err(NotABundle); }
    return Ok(assets);
  }

  lemma NothingLeft(left: map<string, ZipFile>, entries: seq<AssetEntry>, files: map<string, ZipFile>)
    requires LeftAfter(left, entries, |entries|, files)
    ensures |left| == 0 <==> NoneUndeclared(entries, files)
  {
    if |left| != 0 {
      assert left.Keys != {};
      var name :| name in left;
      assert !NamedBefore(entries, |entries|, name);
    } else {
      forall name | name in files ensures exists i :: 0 <= i < |entries| && EntryNameOf(entries[i].assetRef) == name {
        assert name !in left;
        assert NamedBefore(entries, |entries|, name);
      }
    }
  }

  // ---- Accepting ----

  ghost predicate SlidesServed(m: Manifest) {
    forall ref :: References(m.cast.slides, ref) ==> exists i :: 0 <= i < |m.assets| && m.assets[i].assetRef == ref
  }

  function ReadManifest<Raw(!new)>(f: Codec<Raw>, files: seq<ZipFile>): Option<Manifest> {
    match LastManifest(files)
    case None => None
    case Some(file) =>
      match ReadEntry(file, MAX_MANIFEST_BYTES)
      case None => None
      case Some(text) => f.decode(text)
  }

  ghost predicate Acceptable<Raw(!new)>(f: Codec<Raw>, raw: Raw) {
    && f.size(raw) <= MAX_BUNDLE_BYTES && f.unzip(raw).Some?
    && var files := f.unzip(raw).value;
       && WithinTotal(files) && Recognized(files)
       && |AssetFiles(files)| <= MAX_ASSETS
       && ReadManifest(f, files).Some?
       && var m := ReadManifest(f, files).value;
          m.format == FORMAT && AllCarried(f, m.assets, AssetFiles(files)) &&
            NoneUndeclared(m.assets, AssetFiles(files))
          && SlidesServed(m)
  }

  ghost predicate IsRead<Raw(!new)>(f: Codec<Raw>, raw: Raw, b: Bundle) {
    && f.unzip(raw).Some?
    && var files := f.unzip(raw).value;
       ReadManifest(f, files) == Some(b.manifest) && b.assets == Delivered(b.manifest.assets, AssetFiles(files))
  }

  // A file in order up to its manifest, which is of another format.
  ghost predicate OtherFormat<Raw(!new)>(f: Codec<Raw>, raw: Raw) {
    && f.size(raw) <= MAX_BUNDLE_BYTES && f.unzip(raw).Some?
    && var files := f.unzip(raw).value;
       && WithinTotal(files) && Recognized(files) && |AssetFiles(files)| <= MAX_ASSETS
       && ReadManifest(f, files).Some? && ReadManifest(f, files).value.format != FORMAT
  }

  method CheckSlides(m: Manifest, assets: map<string, bytes>) returns (ok: bool)
    requires forall ref :: ref in assets <==> exists i :: 0 <= i < |m.assets| && m.assets[i].assetRef == ref
    ensures ok <==> SlidesServed(m)
  {
    var refs := ReferencedAssets(m.cast.slides);
    for i := 0 to |refs|
      invariant forall k :: 0 <= k < i ==> refs[k] in assets
    {
      if refs[i] !in assets { return false; }
    }
    return true;
  }

  method Read<Raw(!new)>(f: Codec<Raw>, raw: Raw) returns (r: Result<Bundle, Kind>)
    ensures r.Ok? <==> Acceptable(f, raw)
    ensures r.Ok? ==> IsRead(f, raw, r.value)
    ensures f.size(raw) > MAX_BUNDLE_BYTES ==> r == Err(TooLarge)
    ensures f.size(raw) <= MAX_BUNDLE_BYTES && f.unzip(raw).None? ==> r == Err(NotABundle)
    ensures r == Err(WrongFormat) <==> OtherFormat(f, raw)
  {
    if f.size(raw) > MAX_BUNDLE_BYTES { return Err(TooLarge); }
    var files := f.unzip(raw);
    if files.None? { return Err(NotABundle); }
    var scanned := ScanFiles(files.value);
    if scanned.Err? { return Err(scanned.error); }
    var (manifestFile, assetFiles) := scanned.value;
    if manifestFile.None? { return Err(NotABundle); }
    if |assetFiles| > MAX_ASSETS { return Err(TooLarge); }
    var text := ReadEntry(manifestFile.value, MAX_MANIFEST_BYTES);
    if text.None? { return Err(Damaged); }
    var m := f.decode(text.value);
    if m.None? { return Err(NotABundle); }
    if m.value.format != FORMAT { return Err(WrongFormat); }
    var assets := ReadAssets(f, m.value.assets, assetFiles);
    if assets.Err? { return Err(assets.error); }
    DeliveredHolds(m.value.assets, assetFiles);
    var served := CheckSlides(m.value, assets.value);
    if !served { return Err(Damaged); }
    return Ok(Bundle(m.value, assets.value));
  }
}
