// What the reader's running total, a 64-bit sum of declared sizes, keeps to the
// limit and what it does not.
module CastSizes {
  import opened Wrappers
  import opened Bytes
  import opened CastBundles
  import opened CastExchange
  import opened CastTheorems

  // The declared sizes, added up without wrapping.
  function DeclaredTotal(files: seq<ZipFile>): nat {
    if files == [] then 0
    else
      var last, before := files[|files| - 1], DeclaredTotal(files[..|files| - 1]);
      if IsDirectory(last.name) then before else before + last.declared
  }

  // No entry declares so much that the sum could wrap before the limit is noticed.
  ghost predicate NoneWraps(files: seq<ZipFile>) {
    forall i {:trigger files[i]} :: 0 <= i < |files| && !IsDirectory(files[i].name) ==>
      files[i].declared < TWO_63 - MAX_BUNDLE_BYTES
  }

  lemma DeclaredStep(files: seq<ZipFile>, k: nat)
    requires k < |files|
    ensures DeclaredTotal(files[..k + 1]) ==
      DeclaredTotal(files[..k]) + if IsDirectory(files[k].name) then 0 else files[k].declared
  {
    assert files[..k + 1][..k] == files[..k];
  }

  lemma WrapWithin(n: int)
    requires -TWO_63 <= n < TWO_63
    ensures Wrap64(n) == n
  {
  }

  lemma WrapHalf()
    ensures Wrap64(TWO_63) == -TWO_63
  {
  }

  lemma RunningStep(files: seq<ZipFile>, k: nat)
    requires k < |files| && (!IsDirectory(files[k].name) ==> files[k].declared < TWO_63 - MAX_BUNDLE_BYTES)
    requires RunningTotal(files[..k]) == DeclaredTotal(files[..k]) <= MAX_BUNDLE_BYTES
    ensures RunningTotal(files[..k + 1]) == DeclaredTotal(files[..k + 1])
  {
    ScanStep(files, k);
    DeclaredStep(files, k);
    if !IsDirectory(files[k].name) {
      WrapWithin(files[k].declared);
      WrapWithin(RunningTotal(files[..k]) + files[k].declared);
    }
  }

  lemma {:induction false} RunningIsDeclared(files: seq<ZipFile>, k: nat)
    requires WithinTotal(files) && NoneWraps(files) && k <= |files|
    ensures RunningTotal(files[..k]) == DeclaredTotal(files[..k]) <= MAX_BUNDLE_BYTES
  {
    if k > 0 {
      RunningIsDeclared(files, k - 1);
      RunningStep(files, k - 1);
      assert RunningTotal(files[..k]) <= MAX_BUNDLE_BYTES;
    }
  }

  lemma {:induction false} EachIsPart(files: seq<ZipFile>, k: nat, i: nat)
    requires i < k <= |files| && !IsDirectory(files[i].name)
    ensures files[i].declared <= DeclaredTotal(files[..k])
  {
    DeclaredStep(files, k - 1);
    if i < k - 1 { EachIsPart(files, k - 1, i); }
  }

  // Files the reader's total passes really are within the limit exactly when no
  // entry declares so much.
  lemma LimitHoldsIff(files: seq<ZipFile>)
    requires WithinTotal(files)
    ensures DeclaredTotal(files) <= MAX_BUNDLE_BYTES <==> NoneWraps(files)
  {
    assert files[..|files|] == files;
    if NoneWraps(files) {
      RunningIsDeclared(files, |files|);
    } else {
      var i :| 0 <= i < |files| && !IsDirectory(files[i].name) && files[i].declared >= TWO_63 - MAX_BUNDLE_BYTES;
      EachIsPart(files, |files|, i);
    }
  }

  // An entry that declares half the range, and is replaced by a later one of its
  // name, lets three assets of full size through.
  function Wrapping(body: bytes): seq<ZipFile> {
    [ZipFile("assets/a", TWO_63, None), ZipFile("assets/a", |body|, Some(body)),
     ZipFile("assets/b", |body|, Some(body)), ZipFile("assets/c", |body|, Some(body))]
  }

  // One entry of half the range, then three of full size.
  ghost predicate HalfThenThree(files: seq<ZipFile>) {
    && |files| == 4 && files[0].declared == TWO_63
    && (forall k {:trigger files[k]} :: 0 <= k < 4 ==> !IsDirectory(files[k].name))
    && forall k {:trigger files[k]} :: 1 <= k < 4 ==> files[k].declared == MAX_ASSET_BYTES
  }

  // The running total once k of them are in.
  function Wrapped(k: nat): int {
    if k == 0 then 0 else (k - 1) * MAX_ASSET_BYTES - TWO_63
  }

  lemma WrapsTo(declared: nat, k: nat)
    requires k < 4 && declared == if k == 0 then TWO_63 else MAX_ASSET_BYTES
    ensures Wrap64(Wrapped(k) + Wrap64(declared)) == Wrapped(k + 1)
  {
    WrapHalf();
    WrapWithin(MAX_ASSET_BYTES);
    WrapWithin(k * MAX_ASSET_BYTES - TWO_63);
  }

  lemma WrappedStep(files: seq<ZipFile>, k: nat)
    requires HalfThenThree(files) && k < 4 && RunningTotal(files[..k]) == Wrapped(k)
    ensures RunningTotal(files[..k + 1]) == Wrapped(k + 1)
  {
    ScanStep(files, k);
    WrapsTo(files[k].declared, k);
  }

  lemma {:induction false} TotalWraps(files: seq<ZipFile>, k: nat)
    requires HalfThenThree(files) && k <= 4
    ensures RunningTotal(files[..k]) == Wrapped(k)
  {
    if k == 0 {
      assert files[..0] == [];
    } else {
      TotalWraps(files, k - 1);
      WrappedStep(files, k - 1);
    }
  }

  lemma TotalIsNotSeen(files: seq<ZipFile>)
    requires HalfThenThree(files)
    ensures WithinTotal(files)
  {
    forall k | 0 <= k <= |files| ensures RunningTotal(files[..k]) <= MAX_BUNDLE_BYTES {
      TotalWraps(files, k);
    }
  }

  lemma ThreeAreKept(files: seq<ZipFile>, body: bytes, k: nat)
    requires files == Wrapping(body) && 1 <= k < 4
    ensures files[k].name in AssetFiles(files) && AssetFiles(files)[files[k].name].content == Some(body)
  {
    assert IsAsset(files[k]);
    AssetFilesAre(files, files[k].name);
  }

  lemma TotalCanWrap(body: bytes)
    requires |body| == MAX_ASSET_BYTES
    ensures var files := Wrapping(body);
      && WithinTotal(files) && Recognized(files)
      && DeclaredTotal(files) > MAX_BUNDLE_BYTES && 3 * |body| > MAX_BUNDLE_BYTES
      && forall name :: name in {"assets/a", "assets/b", "assets/c"} ==>
           name in AssetFiles(files) && ReadEntry(AssetFiles(files)[name], MAX_ASSET_BYTES) == Some(body)
  {
    var files := Wrapping(body);
    TotalIsNotSeen(files);
    LimitHoldsIff(files);
    ThreeAreKept(files, body, 1);
    ThreeAreKept(files, body, 2);
    ThreeAreKept(files, body, 3);
  }

  // ---- What an accepted bundle carries ----

  // What a zip reader makes sure of: an entry read whole is as long as declared.
  ghost predicate Measured(files: seq<ZipFile>) {
    forall i {:trigger files[i]} :: 0 <= i < |files| && files[i].content.Some? ==>
      |files[i].content.value| == files[i].declared
  }

  // Names and sizes.
  type Item = (string, nat)

  function Sum(items: seq<Item>): nat {
    if items == [] then 0 else Sum(items[..|items| - 1]) + items[|items| - 1].1
  }

  predicate StandsAt(files: seq<ZipFile>, item: Item, k: nat) {
    k < |files| && !IsDirectory(files[k].name) && files[k].name == item.0 && files[k].declared == item.1
  }

  ghost predicate Stands(files: seq<ZipFile>, item: Item) {
    exists k: nat :: StandsAt(files, item, k)
  }

  // Each item is an entry of its own.
  ghost predicate Among(items: seq<Item>, files: seq<ZipFile>) {
    && (forall i, j :: 0 <= i < j < |items| ==> items[i].0 != items[j].0)
    && forall i :: 0 <= i < |items| ==> Stands(files, items[i])
  }

  function Without(files: seq<ZipFile>, k: nat): seq<ZipFile>
    requires k < |files|
  {
    files[..k] + files[k + 1..]
  }

  lemma {:induction false} TotalWithout(files: seq<ZipFile>, k: nat)
    requires k < |files| && !IsDirectory(files[k].name)
    ensures DeclaredTotal(files) == DeclaredTotal(Without(files, k)) + files[k].declared
    decreases |files|
  {
    var n := |files| - 1;
    if k < n {
      TotalWithout(files[..n], k);
      assert Without(files, k)[..n - 1] == Without(files[..n], k) && Without(files, k)[n - 1] == files[n];
    } else {
      assert Without(files, k) == files[..n];
    }
  }

  lemma StandsWithout(files: seq<ZipFile>, k: nat, item: Item)
    requires k < |files| && Stands(files, item) && files[k].name != item.0
    ensures Stands(Without(files, k), item)
  {
    var l: nat :| StandsAt(files, item, l);
    assert StandsAt(Without(files, k), item, if l < k then l else l - 1);
  }

  lemma RestAmong(items: seq<Item>, files: seq<ZipFile>, k: nat)
    requires items != [] && Among(items, files) && StandsAt(files, items[|items| - 1], k)
    ensures Among(items[..|items| - 1], Without(files, k))
  {
    var n := |items| - 1;
    forall i | 0 <= i < n ensures Stands(Without(files, k), items[..n][i]) {
      assert items[i].0 != items[n].0;
      StandsWithout(files, k, items[i]);
    }
  }

  lemma {:induction false} AmongFits(items: seq<Item>, files: seq<ZipFile>)
    requires Among(items, files)
    ensures Sum(items) <= DeclaredTotal(files)
    decreases |items|
  {
    if items != [] {
      var n := |items| - 1;
      assert Stands(files, items[n]);
      var k: nat :| StandsAt(files, items[n], k);
      RestAmong(items, files, k);
      AmongFits(items[..n], Without(files, k));
      TotalWithout(files, k);
    }
  }

  // The bodies of an imported bundle, one for each reference it declares.
  function BodyBytes(entries: seq<AssetEntry>, assets: map<string, bytes>): nat {
    if entries == [] then 0
    else
      var ref := entries[|entries| - 1].assetRef;
      BodyBytes(entries[..|entries| - 1], assets) + if ref in assets then |assets[ref]| else 0
  }

  function ItemsOf(text: bytes, entries: seq<AssetEntry>, files: map<string, ZipFile>): seq<Item> {
    [(MANIFEST_NAME, |text|)]
    + seq(|entries|, i requires 0 <= i < |entries| => (EntryNameOf(entries[i].assetRef), |BodyOf(entries[i], files)|))
  }

  lemma {:induction false} SumOfItems(
    text: bytes, entries: seq<AssetEntry>, files: map<string, ZipFile>, assets: map<string, bytes>, n: nat)
    requires n <= |entries|
    requires forall i :: 0 <= i < |entries| ==>
      entries[i].assetRef in assets && assets[entries[i].assetRef] == BodyOf(entries[i], files)
    ensures Sum(ItemsOf(text, entries, files)[..n + 1]) == |text| + BodyBytes(entries[..n], assets)
  {
    var items := ItemsOf(text, entries, files);
    assert items[..n + 1][..n] == items[..n];
    if n == 0 {
      assert items[..0] == [];
    } else {
      SumOfItems(text, entries, files, assets, n - 1);
      assert entries[..n][..n - 1] == entries[..n - 1];
    }
  }

  lemma {:induction false} ManifestIsAFile(files: seq<ZipFile>)
    requires LastManifest(files).Some?
    ensures exists k: nat :: k < |files| && files[k] == LastManifest(files).value && files[k].name == MANIFEST_NAME
  {
    var n := |files| - 1;
    if files[n].name != MANIFEST_NAME {
      ManifestIsAFile(files[..n]);
      var k: nat :| k < n && files[..n][k] == LastManifest(files).value && files[..n][k].name == MANIFEST_NAME;
      assert files[k] == LastManifest(files).value;
    }
  }

  lemma ManifestStands(files: seq<ZipFile>, text: bytes)
    requires Measured(files) && LastManifest(files).Some? &&
      ReadEntry(LastManifest(files).value, MAX_MANIFEST_BYTES) == Some(text)
    ensures Stands(files, (MANIFEST_NAME, |text|))
  {
    ManifestIsAFile(files);
    var k: nat :| k < |files| && files[k] == LastManifest(files).value && files[k].name == MANIFEST_NAME;
    assert StandsAt(files, (MANIFEST_NAME, |text|), k);
  }

  lemma AssetStands<Raw(!new)>(f: Codec<Raw>, files: seq<ZipFile>, a: AssetEntry)
    requires Measured(files) && Carries(f, a, AssetFiles(files))
    ensures Stands(files, (EntryNameOf(a.assetRef), |BodyOf(a, AssetFiles(files))|))
  {
    var name := EntryNameOf(a.assetRef);
    AssetFilesAre(files, name);
    var k :| 0 <= k < |files| && LastNamed(files, name, k) && AssetFiles(files)[name] == files[k];
    assert StandsAt(files, (name, |BodyOf(a, AssetFiles(files))|), k);
  }

  lemma ItemsStand<Raw(!new)>(f: Codec<Raw>, files: seq<ZipFile>, text: bytes, entries: seq<AssetEntry>)
    requires Measured(files) && LastManifest(files).Some?
    requires ReadEntry(LastManifest(files).value, MAX_MANIFEST_BYTES) == Some(text)
    requires AllCarried(f, entries, AssetFiles(files))
    ensures Among(ItemsOf(text, entries, AssetFiles(files)), files)
  {
    var items := ItemsOf(text, entries, AssetFiles(files));
    ManifestStands(files, text);
    forall i | 0 <= i < |items| ensures Stands(files, items[i]) {
      if i > 0 { ItemStands(f, files, text, entries, i); }
    }
    ItemsDiffer(text, entries, AssetFiles(files));
  }

  lemma ItemStands<Raw(!new)>(f: Codec<Raw>, files: seq<ZipFile>, text: bytes, entries: seq<AssetEntry>, i: nat)
    requires Measured(files) && AllCarried(f, entries, AssetFiles(files)) && 0 < i <= |entries|
    ensures Stands(files, ItemsOf(text, entries, AssetFiles(files))[i])
  {
    AssetStands(f, files, entries[i - 1]);
  }

  lemma ItemsDiffer(text: bytes, entries: seq<AssetEntry>, files: map<string, ZipFile>)
    requires NamesDistinct(entries)
    ensures var items := ItemsOf(text, entries, files); forall i, j :: 0 <= i < j < |items| ==> items[i].0 != items[j].0
  {
    var items := ItemsOf(text, entries, files);
    forall i, j | 0 <= i < j < |items| ensures items[i].0 != items[j].0 {
      NamesStartTheSame(entries[j - 1].assetRef);
      if i > 0 { assert EntryNameOf(entries[i - 1].assetRef) != EntryNameOf(entries[j - 1].assetRef); }
    }
  }

  lemma DeliveredSum(text: bytes, entries: seq<AssetEntry>, files: map<string, ZipFile>)
    ensures Sum(ItemsOf(text, entries, files)) == |text| + BodyBytes(entries, Delivered(entries, files))
  {
    DeliveredHolds(entries, files);
    SumOfItems(text, entries, files, Delivered(entries, files), |entries|);
    assert ItemsOf(text, entries, files)[..|entries| + 1] == ItemsOf(text, entries, files);
    assert entries[..|entries|] == entries;
  }

  lemma CarriedFits<Raw(!new)>(
    f: Codec<Raw>, files: seq<ZipFile>, text: bytes, entries: seq<AssetEntry>, assets: map<string, bytes>)
    requires Measured(files) && LastManifest(files).Some?
    requires ReadEntry(LastManifest(files).value, MAX_MANIFEST_BYTES) == Some(text)
    requires AllCarried(f, entries, AssetFiles(files)) && assets == Delivered(entries, AssetFiles(files))
    ensures |text| + BodyBytes(entries, assets) <= DeclaredTotal(files)
  {
    ItemsStand(f, files, text, entries);
    AmongFits(ItemsOf(text, entries, AssetFiles(files)), files);
    DeliveredSum(text, entries, AssetFiles(files));
  }

  // The manifest and the bodies an accepted bundle yields are within the limit
  // together, provided no entry of the file declares so much that the total wraps.
  lemma AcceptedBundleFits<Raw(!new)>(f: Codec<Raw>, raw: Raw, b: Bundle)
    requires Acceptable(f, raw) && IsRead(f, raw, b)
    requires Measured(f.unzip(raw).value) && NoneWraps(f.unzip(raw).value)
    ensures var text := ReadEntry(LastManifest(f.unzip(raw).value).value, MAX_MANIFEST_BYTES).value;
      |text| + BodyBytes(b.manifest.assets, b.assets) <= MAX_BUNDLE_BYTES
  {
    var files := f.unzip(raw).value;
    var text := ReadEntry(LastManifest(files).value, MAX_MANIFEST_BYTES).value;
    LimitHoldsIff(files);
    CarriedFits(f, files, text, b.manifest.assets, b.assets);
  }
}
