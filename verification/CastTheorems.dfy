// What an accepted bundle guarantees, and that an export is always an import.
module CastTheorems {
  import opened Wrappers
  import opened Bytes
  import opened Strings
  import opened CastBundles
  import opened CastExchange

  // ---- Entries by name ----

  lemma {:induction false} AssetFilesAre(files: seq<ZipFile>, name: string)
    ensures name in AssetFiles(files) ==>
      exists k :: 0 <= k < |files| && LastNamed(files, name, k) && AssetFiles(files)[name] == files[k]
    ensures forall k :: 0 <= k < |files| && IsAsset(files[k]) && files[k].name == name ==> name in AssetFiles(files)
  {
    if files != [] {
      var n := |files| - 1;
      AssetFilesAre(files[..n], name);
      if name in AssetFiles(files) {
        if IsAsset(files[n]) && files[n].name == name {
          assert LastNamed(files, name, n);
        } else {
          var k :| 0 <= k < n && LastNamed(files[..n], name, k) && AssetFiles(files[..n])[name] == files[..n][k];
          assert LastNamed(files, name, k);
        }
      }
      forall k | 0 <= k < |files| && IsAsset(files[k]) && files[k].name == name ensures name in AssetFiles(files) {
        if k < n { assert files[..n][k] == files[k]; }
      }
    }
  }

  ghost predicate LastNamed(files: seq<ZipFile>, name: string, k: nat)
    requires k < |files|
  {
    IsAsset(files[k]) && files[k].name == name && forall l :: k < l < |files| && IsAsset(files[l]) ==>
      files[l].name != name
  }

  // ---- What acceptance guarantees ----

  // No reference is declared twice; the assets are keyed by exactly the declared
  // references; every value hashes to its key; and every slide's reference is
  // there.
  lemma AcceptedBundle<Raw(!new)>(f: Codec<Raw>, raw: Raw, b: Bundle)
    requires Acceptable(f, raw) && IsRead(f, raw, b)
    ensures forall i, j :: 0 <= i < j < |b.manifest.assets| ==>
      b.manifest.assets[i].assetRef != b.manifest.assets[j].assetRef
    ensures forall ref :: ref in b.assets <==> Declares(b.manifest.assets, ref)
    ensures forall ref :: ref in b.assets ==> f.RefOf(b.assets[ref]) == ref
    ensures forall ref :: References(b.manifest.cast.slides, ref) ==> ref in b.assets
  {
    var files, entries := f.unzip(raw).value, b.manifest.assets;
    DeliveredHolds(entries, AssetFiles(files));
    DistinctNamesDistinctRefs(entries);
    forall ref | ref in b.assets ensures f.RefOf(b.assets[ref]) == ref {
      var i :| 0 <= i < |entries| && entries[i].assetRef == ref;
      assert Carries(f, entries[i], AssetFiles(files));
    }
    forall ref | References(b.manifest.cast.slides, ref) ensures ref in b.assets {
      var i :| 0 <= i < |entries| && entries[i].assetRef == ref;
    }
  }

  // The file holds nothing its manifest does not declare: the manifest an operator
  // reads is the list of what an import will write.
  lemma NothingIsSmuggled<Raw(!new)>(f: Codec<Raw>, raw: Raw, b: Bundle, k: nat)
    requires Acceptable(f, raw) && IsRead(f, raw, b) && k < |f.unzip(raw).value|
    ensures var name := f.unzip(raw).value[k].name;
      || IsDirectory(name) || name == MANIFEST_NAME
      || exists i :: 0 <= i < |b.manifest.assets| && EntryNameOf(b.manifest.assets[i].assetRef) == name
  {
    AssetFilesAre(f.unzip(raw).value, f.unzip(raw).value[k].name);
  }

  lemma DistinctNamesDistinctRefs(entries: seq<AssetEntry>)
    requires NamesDistinct(entries)
    ensures forall i, j :: 0 <= i < j < |entries| ==> entries[i].assetRef != entries[j].assetRef
  {
    forall i, j | 0 <= i < j < |entries| ensures entries[i].assetRef != entries[j].assetRef {
      assert EntryNameOf(entries[i].assetRef) != EntryNameOf(entries[j].assetRef);
    }
  }

  // ---- An exported file ----

  // The manifest, then every asset under its name.
  ghost predicate Written(files: seq<ZipFile>, text: bytes, refs: seq<string>, assets: map<string, bytes>) {
    && AllHeld(refs, assets) && |files| == |refs| + 1
    && files[0] == ZipFile(MANIFEST_NAME, |text|, Some(text))
    && forall k {:trigger refs[k]} :: 0 <= k < |refs| ==>
         files[k + 1] == ZipFile(EntryNameOf(refs[k]), |assets[refs[k]]|, Some(assets[refs[k]]))
  }

  ghost predicate Genuine<Raw(!new)>(f: Codec<Raw>, refs: seq<string>, assets: map<string, bytes>)
    requires AllHeld(refs, assets)
  {
    forall i {:trigger refs[i]} :: 0 <= i < |refs| ==> f.RefOf(assets[refs[i]]) == refs[i]
  }

  // Names an asset can have: of fixed length, and no directory's.
  ghost predicate WellNamed(refs: seq<string>) {
    forall i {:trigger refs[i]} :: 0 <= i < |refs| ==>
      && |EntryNameOf(refs[i])| == |ASSET_PREFIX| + 64
      && !IsDirectory(EntryNameOf(refs[i])) && EntryNameOf(refs[i]) != MANIFEST_NAME &&
        ASSET_PREFIX <= EntryNameOf(refs[i])
  }

  lemma NamesStartTheSame(ref: string)
    ensures EntryNameOf(ref) != MANIFEST_NAME && ASSET_PREFIX <= EntryNameOf(ref)
  {
    assert EntryNameOf(ref)[0] == 'a' && MANIFEST_NAME[0] == 'c';
  }

  lemma HashedName<Raw(!new)>(f: Codec<Raw>, ref: string, b: bytes)
    requires f.Lawful() && f.RefOf(b) == ref
    ensures EntryNameOf(ref) == ASSET_PREFIX + f.hex(b)
    ensures |EntryNameOf(ref)| == |ASSET_PREFIX| + 64 && !IsDirectory(EntryNameOf(ref))
  {
    var h := f.hex(b);
    assert ref[|HASH_PREFIX|..] == h;
    var name := EntryNameOf(ref);
    assert name[|name| - 1] == h[63];
  }

  lemma GenuineIsWellNamed<Raw(!new)>(f: Codec<Raw>, refs: seq<string>, assets: map<string, bytes>)
    requires f.Lawful() && AllHeld(refs, assets) && Genuine(f, refs, assets)
    ensures WellNamed(refs)
  {
    forall i | 0 <= i < |refs|
      ensures |EntryNameOf(refs[i])| == |ASSET_PREFIX| + 64 && !IsDirectory(EntryNameOf(refs[i]))
      ensures EntryNameOf(refs[i]) != MANIFEST_NAME && ASSET_PREFIX <= EntryNameOf(refs[i])
    {
      HashedName(f, refs[i], assets[refs[i]]);
      NamesStartTheSame(refs[i]);
    }
  }

  lemma GenuineNamesDistinct<Raw(!new)>(f: Codec<Raw>, refs: seq<string>, assets: map<string, bytes>)
    requires f.Lawful() && AllHeld(refs, assets) && Ascending(refs) && Genuine(f, refs, assets)
    ensures NamesDistinct(Listed(refs, assets))
  {
    var listed := Listed(refs, assets);
    forall i, j | 0 <= i < j < |listed| ensures EntryNameOf(listed[i].assetRef) != EntryNameOf(listed[j].assetRef) {
      HashedName(f, refs[i], assets[refs[i]]);
      HashedName(f, refs[j], assets[refs[j]]);
      LessIsStrictTotal(refs[i], refs[j]);
      assert Less(refs[i], refs[j]);
      assert EntryNameOf(refs[i])[|ASSET_PREFIX|..] == f.hex(assets[refs[i]]);
      assert EntryNameOf(refs[j])[|ASSET_PREFIX|..] == f.hex(assets[refs[j]]);
    }
  }

  // ---- Every size the reader checks ----

  lemma {:induction false} ManifestIsFirst(
    files: seq<ZipFile>, text: bytes, refs: seq<string>, assets: map<string, bytes>, k: nat)
    requires Written(files, text, refs, assets) && k <= |refs|
    ensures LastManifest(files[..k + 1]) == Some(files[0])
  {
    ScanStep(files, k);
    if k > 0 {
      ManifestIsFirst(files, text, refs, assets, k - 1);
      NamesStartTheSame(refs[k - 1]);
    }
  }

  lemma {:induction false} ContentGrows(refs: seq<string>, assets: map<string, bytes>, k: nat)
    requires AllHeld(refs, assets) && k <= |refs|
    ensures ContentBytes(refs[..k], assets) <= ContentBytes(refs, assets)
    decreases |refs|
  {
    if k == |refs| {
      assert refs[..k] == refs;
    } else {
      var n := |refs| - 1;
      ContentGrows(refs[..n], assets, k);
      assert refs[..n][..k] == refs[..k];
    }
  }

  lemma AddNoWrap(a: nat, b: nat)
    requires a + b <= MAX_BUNDLE_BYTES
    ensures Wrap64(a + Wrap64(b)) == a + b
  {
    assert Wrap64(b) == b;
  }

  lemma ContentStep(refs: seq<string>, assets: map<string, bytes>, k: nat)
    requires AllHeld(refs, assets) && 0 < k <= |refs|
    ensures ContentBytes(refs[..k], assets) == ContentBytes(refs[..k - 1], assets) + |assets[refs[k - 1]]|
  {
    assert refs[..k][..k - 1] == refs[..k - 1];
  }

  // A directory's declared size is passed over.
  lemma TotalStep(files: seq<ZipFile>, k: nat, most: nat)
    requires k < |files| && 0 <= RunningTotal(files[..k]) <= most
    requires most + files[k].declared <= MAX_BUNDLE_BYTES
    ensures 0 <= RunningTotal(files[..k + 1]) <= most + files[k].declared
  {
    ScanStep(files, k);
    AddNoWrap(RunningTotal(files[..k]), files[k].declared);
  }

  lemma {:induction false} TotalIsInContent(
    files: seq<ZipFile>, text: bytes, refs: seq<string>, assets: map<string, bytes>, k: nat)
    requires Written(files, text, refs, assets) && k <= |refs|
    requires |text| + ContentBytes(refs, assets) <= MAX_BUNDLE_BYTES
    ensures 0 <= RunningTotal(files[..k + 1]) <= |text| + ContentBytes(refs[..k], assets) <= MAX_BUNDLE_BYTES
  {
    ContentGrows(refs, assets, k);
    if k == 0 {
      assert files[..0] == [];
      TotalStep(files, 0, 0);
    } else {
      TotalIsInContent(files, text, refs, assets, k - 1);
      ContentStep(refs, assets, k);
      DeclaresItsBody(files, text, refs, assets, k);
      TotalStep(files, k, |text| + ContentBytes(refs[..k - 1], assets));
    }
  }

  lemma DeclaresItsBody(files: seq<ZipFile>, text: bytes, refs: seq<string>, assets: map<string, bytes>, k: nat)
    requires Written(files, text, refs, assets) && 0 < k <= |refs|
    ensures files[k].declared == |assets[refs[k - 1]]|
  {
    assert files[k - 1 + 1].name == EntryNameOf(refs[k - 1]);
  }

  lemma {:induction false} FewAssetFiles(files: seq<ZipFile>, k: nat)
    requires k < |files| && files[0].name == MANIFEST_NAME
    ensures |AssetFiles(files[..k + 1])| <= k
  {
    ScanStep(files, k);
    if k == 0 {
      assert files[..0] == [];
    } else {
      FewAssetFiles(files, k - 1);
    }
  }

  // Entry names no longer than a hash makes them, which is what the reserve for
  // framing is reckoned with.
  ghost predicate NamesFit(refs: seq<string>) {
    forall i {:trigger refs[i]} :: 0 <= i < |refs| ==> |EntryNameOf(refs[i])| <= |ASSET_PREFIX| + 64
  }

  lemma {:induction false} SizeOfEntries(p: Plan, refs: seq<string>, assets: map<string, bytes>, k: nat)
    requires AllHeld(refs, assets) && NamesFit(refs) && p.entries == PlannedOf(refs, assets) && k <= |refs|
    ensures SizeBound(EntriesOf(p)[..k + 1]) <=
      22 + 118 + |p.manifest| + |p.manifest| / 8 + 64 + 242 * k + ContentBytes(refs[..k], assets)
  {
    var es := EntriesOf(p);
    assert es[..k + 1][..k] == es[..k];
    if k == 0 {
      assert es[..0] == [];
    } else {
      SizeOfEntries(p, refs, assets, k - 1);
      ContentStep(refs, assets, k);
      assert es[k] == Entry(EntryNameOf(refs[k - 1]), assets[refs[k - 1]], false);
    }
  }

  // On every plan, whatever its references are called.
  lemma TotalsPass(files: seq<ZipFile>, text: bytes, refs: seq<string>, assets: map<string, bytes>)
    requires Written(files, text, refs, assets) && |refs| <= MAX_ASSETS
    requires |text| + ContentBytes(refs, assets) <= MAX_BUNDLE_BYTES
    ensures WithinTotal(files) && |AssetFiles(files)| <= MAX_ASSETS
  {
    forall k | 0 <= k <= |files| ensures RunningTotal(files[..k]) <= MAX_BUNDLE_BYTES {
      if k > 0 { TotalIsInContent(files, text, refs, assets, k - 1); }
    }
    FewAssetFiles(files, |refs|);
    assert files[..|refs| + 1] == files;
  }

  // ---- Every asset is found ----

  // With names distinct, the entry found for a reference is the one written for it.
  lemma FoundAsWritten(files: seq<ZipFile>, text: bytes, refs: seq<string>, assets: map<string, bytes>, i: nat)
    requires Written(files, text, refs, assets) && i < |refs| && NamesDistinct(Listed(refs, assets))
    ensures var found := AssetFiles(files);
      EntryNameOf(refs[i]) in found ==> found[EntryNameOf(refs[i])].content == Some(assets[refs[i]])
  {
    var listed, name := Listed(refs, assets), EntryNameOf(refs[i]);
    AssetFilesAre(files, name);
    if name in AssetFiles(files) {
      var k :| 0 <= k < |files| && LastNamed(files, name, k) && AssetFiles(files)[name] == files[k];
      assert k > 0;
      assert files[k].name == EntryNameOf(refs[k - 1]);
      assert EntryNameOf(listed[k - 1].assetRef) == EntryNameOf(listed[i].assetRef);
    }
  }

  lemma WrittenIsFound(files: seq<ZipFile>, text: bytes, refs: seq<string>, assets: map<string, bytes>, i: nat)
    requires Written(files, text, refs, assets) && WellNamed(refs) && i < |refs|
    ensures EntryNameOf(refs[i]) in AssetFiles(files) && IsAsset(files[i + 1])
  {
    assert files[i + 1].name == EntryNameOf(refs[i]);
    AssetFilesAre(files, EntryNameOf(refs[i]));
  }

  lemma WrittenIsRecognized(files: seq<ZipFile>, text: bytes, refs: seq<string>, assets: map<string, bytes>)
    requires Written(files, text, refs, assets)
    ensures Recognized(files) && NoneUndeclared(Listed(refs, assets), AssetFiles(files))
  {
    var listed := Listed(refs, assets);
    forall k | 0 <= k < |files|
      ensures IsDirectory(files[k].name) || files[k].name == MANIFEST_NAME || ASSET_PREFIX <= files[k].name
    {
      if k > 0 {
        NamesStartTheSame(refs[k - 1]);
        assert files[k].name == EntryNameOf(refs[k - 1]);
      }
    }
    forall name | name in AssetFiles(files)
      ensures exists i :: 0 <= i < |listed| && EntryNameOf(listed[i].assetRef) == name
    {
      AssetFilesAre(files, name);
      var k :| 0 <= k < |files| && LastNamed(files, name, k);
      assert k > 0;
      assert files[k].name == EntryNameOf(refs[k - 1]);
      assert EntryNameOf(listed[k - 1].assetRef) == name;
    }
  }

  predicate SizesPass(refs: seq<string>, assets: map<string, bytes>)
    requires AllHeld(refs, assets)
  {
    forall i {:trigger refs[i]} :: 0 <= i < |refs| ==> |assets[refs[i]]| <= MAX_ASSET_BYTES
  }

  lemma GenuineIsCarried<Raw(!new)>(
    f: Codec<Raw>, files: seq<ZipFile>, text: bytes, refs: seq<string>, assets: map<string, bytes>)
    requires Written(files, text, refs, assets) && SizesPass(refs, assets)
    requires WellNamed(refs) && NamesDistinct(Listed(refs, assets)) && Genuine(f, refs, assets)
    ensures AllCarried(f, Listed(refs, assets), AssetFiles(files))
  {
    var listed := Listed(refs, assets);
    forall i | 0 <= i < |listed| ensures Carries(f, listed[i], AssetFiles(files)) {
      assert listed[i].assetRef == refs[i];
      WrittenIsFound(files, text, refs, assets, i);
      FoundAsWritten(files, text, refs, assets, i);
    }
  }

  lemma CarriedIsGenuine<Raw(!new)>(
    f: Codec<Raw>, files: seq<ZipFile>, text: bytes, refs: seq<string>, assets: map<string, bytes>)
    requires Written(files, text, refs, assets) && AllCarried(f, Listed(refs, assets), AssetFiles(files))
    ensures Genuine(f, refs, assets)
  {
    var listed := Listed(refs, assets);
    forall i | 0 <= i < |refs| ensures f.RefOf(assets[refs[i]]) == refs[i] {
      assert Carries(f, listed[i], AssetFiles(files));
      FoundAsWritten(files, text, refs, assets, i);
    }
  }

  // ---- The round trip ----

  // What an export writes, as the reader's container lists it.
  function PlanFor<Raw(!new)>(f: Codec<Raw>, m: Manifest, refs: seq<string>, assets: map<string, bytes>): Plan
    requires Exportable(f, m, refs, assets)
  {
    Plan(f.encode(ManifestOf(m, refs, assets)).value, PlannedOf(refs, assets))
  }

  function Exported<Raw(!new)>(f: Codec<Raw>, m: Manifest, refs: seq<string>, assets: map<string, bytes>): Raw
    requires Exportable(f, m, refs, assets)
  {
    f.zip(EntriesOf(PlanFor(f, m, refs, assets)))
  }

  lemma PlanIsWritten(p: Plan, refs: seq<string>, assets: map<string, bytes>)
    requires AllHeld(refs, assets) && p.entries == PlannedOf(refs, assets)
    ensures Written(FilesOf(EntriesOf(p)), p.manifest, refs, assets)
  {
    var es := EntriesOf(p);
    forall k | 0 <= k < |refs|
      ensures FilesOf(es)[k + 1] == ZipFile(EntryNameOf(refs[k]), |assets[refs[k]]|, Some(assets[refs[k]]))
    {
      assert es[k + 1] == Entry(p.entries[k].name, p.entries[k].body, false);
    }
  }

  // The whole file is within the limit: content, manifest and framing together.
  lemma PlanFits(p: Plan, refs: seq<string>, assets: map<string, bytes>)
    requires AllHeld(refs, assets) && NamesFit(refs) && p.entries == PlannedOf(refs, assets)
    requires |refs| <= MAX_ASSETS && |p.manifest| <= MAX_MANIFEST_BYTES &&
      ContentBytes(refs, assets) <= MAX_CONTENT_BYTES
    ensures SizeBound(EntriesOf(p)) <= MAX_BUNDLE_BYTES
  {
    SizeOfEntries(p, refs, assets, |refs|);
    assert EntriesOf(p)[..|refs| + 1] == EntriesOf(p) && refs[..|refs|] == refs;
  }

  lemma ExportIsWritten<Raw(!new)>(f: Codec<Raw>, m: Manifest, refs: seq<string>, assets: map<string, bytes>)
    returns (files: seq<ZipFile>, text: bytes)
    requires f.Lawful() && Exportable(f, m, refs, assets)
    ensures f.unzip(Exported(f, m, refs, assets)) == Some(files) && Written(files, text, refs, assets)
    ensures |text| <= MAX_MANIFEST_BYTES && SizesPass(refs, assets)
    ensures ReadManifest(f, files) == Some(ManifestOf(m, refs, assets))
    ensures NamesFit(refs) ==> f.size(Exported(f, m, refs, assets)) <= MAX_BUNDLE_BYTES
  {
    var p := PlanFor(f, m, refs, assets);
    text, files := p.manifest, FilesOf(EntriesOf(p));
    PlanIsWritten(p, refs, assets);
    assert f.unzip(f.zip(EntriesOf(p))) == Some(files);
    ManifestIsRead(f, files, text, refs, assets);
    if NamesFit(refs) { PlanFits(p, refs, assets); }
  }

  lemma ManifestIsRead<Raw(!new)>(
    f: Codec<Raw>, files: seq<ZipFile>, text: bytes, refs: seq<string>, assets: map<string, bytes>)
    requires Written(files, text, refs, assets) && |text| <= MAX_MANIFEST_BYTES
    ensures ReadManifest(f, files) == f.decode(text)
  {
    ManifestIsFirst(files, text, refs, assets, |refs|);
    assert files[..|refs| + 1] == files;
  }

  lemma SlidesAreServed(m: Manifest, refs: seq<string>, assets: map<string, bytes>)
    requires AllHeld(refs, assets) && AreReferences(refs, m.cast.slides)
    ensures SlidesServed(ManifestOf(m, refs, assets))
  {
    var listed := Listed(refs, assets);
    forall ref | References(m.cast.slides, ref) ensures exists i :: 0 <= i < |listed| && listed[i].assetRef == ref {
      var i :| 0 <= i < |refs| && refs[i] == ref;
      assert listed[i].assetRef == ref;
    }
  }

  // A planned export is accepted back exactly when every asset's bytes are what
  // their reference says; planning itself hashes nothing.
  lemma ExportIsImportable<Raw(!new)>(f: Codec<Raw>, m: Manifest, refs: seq<string>, assets: map<string, bytes>)
    requires f.Lawful() && AreReferences(refs, m.cast.slides) && Exportable(f, m, refs, assets)
    ensures Acceptable(f, Exported(f, m, refs, assets)) <==> Genuine(f, refs, assets)
  {
    var files, text := ExportIsWritten(f, m, refs, assets);
    if Genuine(f, refs, assets) {
      GenuineIsWellNamed(f, refs, assets);
      GenuineNamesDistinct(f, refs, assets);
      TotalsPass(files, text, refs, assets);
      WrittenIsRecognized(files, text, refs, assets);
      GenuineIsCarried(f, files, text, refs, assets);
      SlidesAreServed(m, refs, assets);
    }
    if AllCarried(f, Listed(refs, assets), AssetFiles(files)) { CarriedIsGenuine(f, files, text, refs, assets); }
  }

  // And then it comes back as the same cast with exactly its assets.
  lemma ImportIsTheExport<Raw(!new)>(
    f: Codec<Raw>, m: Manifest, refs: seq<string>, assets: map<string, bytes>, b: Bundle)
    requires f.Lawful() && AreReferences(refs, m.cast.slides) && Exportable(f, m, refs, assets) &&
      Genuine(f, refs, assets)
    requires IsRead(f, Exported(f, m, refs, assets), b)
    ensures b.manifest == ManifestOf(m, refs, assets) && b.manifest.cast == m.cast
    ensures forall ref :: ref in b.assets <==> References(m.cast.slides, ref)
    ensures forall ref :: ref in b.assets ==> ref in assets && b.assets[ref] == assets[ref]
  {
    var files, text := ExportIsWritten(f, m, refs, assets);
    GenuineIsWellNamed(f, refs, assets);
    GenuineNamesDistinct(f, refs, assets);
    AssetsComeBack(files, text, refs, assets);
    forall ref ensures ref in b.assets <==> References(m.cast.slides, ref) {
      if References(m.cast.slides, ref) {
        var i :| 0 <= i < |refs| && refs[i] == ref;
      }
      if ref in b.assets {
        var i :| 0 <= i < |refs| && refs[i] == ref;
        assert References(m.cast.slides, refs[i]);
      }
    }
  }

  lemma AssetsComeBack(files: seq<ZipFile>, text: bytes, refs: seq<string>, assets: map<string, bytes>)
    requires Written(files, text, refs, assets) && SizesPass(refs, assets)
    requires WellNamed(refs) && NamesDistinct(Listed(refs, assets))
    ensures var back := Delivered(Listed(refs, assets), AssetFiles(files));
      && (forall ref :: ref in back <==> exists i :: 0 <= i < |refs| && refs[i] == ref)
      && forall ref :: ref in back ==> ref in assets && back[ref] == assets[ref]
  {
    var listed := Listed(refs, assets);
    var back := Delivered(listed, AssetFiles(files));
    DeliveredHolds(listed, AssetFiles(files));
    forall i | 0 <= i < |refs| ensures refs[i] in back && back[refs[i]] == assets[refs[i]] {
      assert listed[i].assetRef == refs[i];
      WrittenIsFound(files, text, refs, assets, i);
      FoundAsWritten(files, text, refs, assets, i);
    }
    forall ref | ref in back ensures exists i :: 0 <= i < |refs| && refs[i] == ref {
      var i :| 0 <= i < |listed| && listed[i].assetRef == ref;
      assert refs[i] == ref;
    }
  }
}
